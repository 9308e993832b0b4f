/**
 What a split does, whatever order its set bucket is walked in: one
 directory per bucket, one placement per location of each bucket and
 nothing else, each placement landing directly inside its bucket's
 directory under the location's file name.
 */
module PlacementLaws {
  import opened Dicts
  import opened PosixPath
  import opened Partition
  import opened Placement

  /** `c` places one of the locations `pkgs` into `targetdir`. */
  ghost predicate PlacesOneOf(action: Action, repository: string, targetdir: string, pkgs: seq<string>, c: FsCall) {
    exists pkg :: pkg in pkgs && c == PlaceCall(action, repository, targetdir, pkg)
  }

  /** A bucket's calls are exactly the placements of its visited locations. */
  lemma {:induction false} BucketCallsMembers(action: Action, repository: string, targetdir: string,
                                              pkgs: seq<string>, c: FsCall)
    ensures c in BucketCalls(action, repository, targetdir, pkgs)
      <==> PlacesOneOf(action, repository, targetdir, pkgs, c)
  {
    if pkgs != [] {
      var init := pkgs[..|pkgs| - 1];
      BucketCallsMembers(action, repository, targetdir, init, c);
      assert pkgs == init + [pkgs[|pkgs| - 1]];
    }
  }

  /** The directory of bucket `j` is the target joined with the bucket's key. */
  ghost function BucketDir(target: string, d: Dict<Bucket>, j: nat): string
    requires j < |d.order|
  {
    Join(target, d.order[j])
  }

  /** `c` makes the directory of one of the first `n` buckets. */
  ghost predicate MakesDirOfFirst(target: string, d: Dict<Bucket>, n: nat, c: FsCall)
    requires n <= |d.order|
  {
    exists j :: 0 <= j < n && c == MakeDir(BucketDir(target, d, j))
  }

  /** `c` places a location visited in one of the first `n` buckets. */
  ghost predicate PlacesInFirst(action: Action, repository: string, target: string, d: Dict<Bucket>,
                                orders: seq<seq<string>>, n: nat, c: FsCall)
    requires n <= |d.order| && n <= |orders|
  {
    exists j, pkg :: 0 <= j < n && pkg in orders[j] && c == PlaceCall(action, repository, BucketDir(target, d, j), pkg)
  }

  lemma MakesDirStep(target: string, d: Dict<Bucket>, n: nat, c: FsCall)
    requires 0 < n <= |d.order|
    ensures MakesDirOfFirst(target, d, n, c)
      <==> (MakesDirOfFirst(target, d, n - 1, c) || c == MakeDir(BucketDir(target, d, n - 1)))
  {
  }

  lemma PlacesStep(action: Action, repository: string, target: string, d: Dict<Bucket>,
                   orders: seq<seq<string>>, n: nat, c: FsCall)
    requires 0 < n <= |d.order| && n <= |orders|
    ensures PlacesInFirst(action, repository, target, d, orders, n, c)
      <==> (PlacesInFirst(action, repository, target, d, orders, n - 1, c)
        || PlacesOneOf(action, repository, BucketDir(target, d, n - 1), orders[n - 1], c))
  {
  }

  /**
   The calls for the first `n` buckets are their directories and the
   placements of their visited locations, and nothing else.
   */
  lemma {:induction false} SplitCallsMembers(action: Action, repository: string, target: string, d: Dict<Bucket>,
                                             orders: seq<seq<string>>, n: nat, c: FsCall)
    requires n <= |d.order| && n <= |orders|
    ensures c in SplitCalls(action, repository, target, d, orders, n)
      <==> (MakesDirOfFirst(target, d, n, c) || PlacesInFirst(action, repository, target, d, orders, n, c))
  {
    if n > 0 {
      var dir := BucketDir(target, d, n - 1);
      SplitCallsMembers(action, repository, target, d, orders, n - 1, c);
      BucketCallsMembers(action, repository, dir, orders[n - 1], c);
      MakesDirStep(target, d, n, c);
      PlacesStep(action, repository, target, d, orders, n, c);
    }
  }

  /** A visiting order visits exactly the bucket's locations. */
  lemma VisitOrderMembers(b: Bucket, pkgs: seq<string>, pkg: string)
    requires VisitOrder(b, pkgs)
    ensures pkg in pkgs <==> pkg in Paths(b)
  {
    match b
    case Listed(items) =>
    case Pooled(members) =>
      assert pkg in pkgs <==> pkg in multiset(pkgs);
      assert pkg in members <==> pkg in multiset(members);
  }

  /**
   A full split places `src` at `dst` exactly when some location of some
   bucket comes from `src` in the repository and goes to `dst` in that
   bucket's directory under the location's file name.
   */
  lemma SplitPlaces(action: Action, repository: string, target: string, d: Dict<Bucket>,
                    orders: seq<seq<string>>, src: string, dst: string)
    requires d.Valid() && VisitOrders(d, orders)
    ensures Place(action, src, dst) in SplitCalls(action, repository, target, d, orders, |d.order|)
      <==> exists j, pkg :: (0 <= j < |d.order| && pkg in Paths(d.entries[d.order[j]])
        && src == Join(repository, pkg) && dst == Join(BucketDir(target, d, j), Basename(pkg)))
  {
    var c := Place(action, src, dst);
    SplitCallsMembers(action, repository, target, d, orders, |d.order|, c);
    if c in SplitCalls(action, repository, target, d, orders, |d.order|) {
      if PlacesInFirst(action, repository, target, d, orders, |d.order|, c) {
        var j, pkg :| 0 <= j < |d.order| && pkg in orders[j]
          && c == PlaceCall(action, repository, BucketDir(target, d, j), pkg);
        VisitOrderMembers(d.entries[d.order[j]], orders[j], pkg);
      }
    }
    if exists j, pkg :: 0 <= j < |d.order| && pkg in Paths(d.entries[d.order[j]])
        && src == Join(repository, pkg) && dst == Join(BucketDir(target, d, j), Basename(pkg)) {
      var j, pkg :| 0 <= j < |d.order| && pkg in Paths(d.entries[d.order[j]])
        && src == Join(repository, pkg) && dst == Join(BucketDir(target, d, j), Basename(pkg));
      VisitOrderMembers(d.entries[d.order[j]], orders[j], pkg);
      assert c == PlaceCall(action, repository, BucketDir(target, d, j), pkg);
    }
  }

  /** A full split makes exactly one directory per bucket, the target joined with its key. */
  lemma SplitMakesDirs(action: Action, repository: string, target: string, d: Dict<Bucket>,
                       orders: seq<seq<string>>, path: string)
    requires d.Valid() && VisitOrders(d, orders)
    ensures MakeDir(path) in SplitCalls(action, repository, target, d, orders, |d.order|)
      <==> exists k :: k in d.entries && path == Join(target, k)
  {
    var c := MakeDir(path);
    SplitCallsMembers(action, repository, target, d, orders, |d.order|, c);
    if exists k :: k in d.entries && path == Join(target, k) {
      var k :| k in d.entries && path == Join(target, k);
      var j :| 0 <= j < |d.order| && d.order[j] == k;
      assert c == MakeDir(BucketDir(target, d, j));
      assert MakesDirOfFirst(target, d, |d.order|, c);
    }
    if MakesDirOfFirst(target, d, |d.order|, c) {
      var j :| 0 <= j < |d.order| && c == MakeDir(BucketDir(target, d, j));
      assert d.order[j] in d.entries;
    }
  }

  /**
   With an absolute, normalized target and a key that is a plain relative
   name, a placement's destination lies directly inside the bucket's
   directory and is named after the location's file name.
   */
  lemma PlacementInBucketDir(target: string, key: string, pkg: string)
    requires IsAbsolute(target) && (!EndsWithSep(target) || target == "/")
    requires key != [] && !IsAbsolute(key) && !EndsWithSep(key)
    ensures Split(Join(Join(target, key), Basename(pkg))) == (Join(target, key), Basename(pkg))
  {
    var dir := Join(target, key);
    JoinShape(target, key);
    assert dir[|dir| - |key|..] == key;
    assert dir[|dir| - 1] == key[|key| - 1];
    BasenameShape(pkg);
    SplitJoin(dir, Basename(pkg));
  }

  /**
   Two locations placed into the same directory collide exactly when their
   file names are equal: then the second hard link or symbolic link fails
   and the second copy overwrites the first.
   */
  lemma DestinationsCollide(dir: string, pkg1: string, pkg2: string)
    ensures Join(dir, Basename(pkg1)) == Join(dir, Basename(pkg2)) <==> Basename(pkg1) == Basename(pkg2)
  {
    var b1, b2 := Basename(pkg1), Basename(pkg2);
    BasenameShape(pkg1);
    BasenameShape(pkg2);
    assert !IsAbsolute(b1) && !IsAbsolute(b2);
    if Join(dir, b1) == Join(dir, b2) {
      JoinShape(dir, b1);
      JoinShape(dir, b2);
      var r := Join(dir, b1);
      if dir == [] || EndsWithSep(dir) {
        assert r == dir + b1 && r == dir + b2;
        assert b1 == r[|dir|..] == b2;
      } else {
        assert r == dir + "/" + b1 && r == dir + "/" + b2;
        assert b1 == r[|dir| + 1..] == b2;
      }
    }
  }
}

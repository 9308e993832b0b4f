/**
 `perform_split`: for every bucket of the partition, in key order, a directory
 named after the bucket is made under the target, and every package of the
 bucket is copied, hard-linked or symlinked from the repository into it under
 its file name. The file system is not modelled; the split is the sequence of
 calls it makes.
 */
module Placement {
  import opened Dicts
  import opened PosixPath
  import opened Partition

  /** The `--action` choices. */
  datatype Action = Copy | Hardlink | Symlink

  /** One file-system call of the split: `os.mkdir(path)` or `_perform_action(src, dst, action)`. */
  datatype FsCall = MakeDir(path: string) | Place(action: Action, src: string, dst: string)

  /** The call made for package location `pkg` of a bucket whose directory is `targetdir`. */
  function PlaceCall(action: Action, repository: string, targetdir: string, pkg: string): FsCall {
    Place(action, Join(repository, pkg), Join(targetdir, Basename(pkg)))
  }

  /** The calls for a bucket whose locations are visited in the order `pkgs`. */
  function BucketCalls(action: Action, repository: string, targetdir: string, pkgs: seq<string>): (calls: seq<FsCall>)
    ensures |calls| == |pkgs|
  {
    if pkgs == [] then []
    else
      BucketCalls(action, repository, targetdir, pkgs[..|pkgs| - 1])
        + [PlaceCall(action, repository, targetdir, pkgs[|pkgs| - 1])]
  }

  /** The `t`-th call for a bucket places its `t`-th visited location. */
  lemma {:induction false} BucketCallsAt(action: Action, repository: string, targetdir: string, pkgs: seq<string>, t: nat)
    requires t < |pkgs|
    ensures BucketCalls(action, repository, targetdir, pkgs)[t] == PlaceCall(action, repository, targetdir, pkgs[t])
  {
    var init := pkgs[..|pkgs| - 1];
    if t < |init| {
      BucketCallsAt(action, repository, targetdir, init, t);
    }
  }

  /**
   `pkgs` is an order in which iterating over bucket `b` can visit its
   locations: a list in its own order, a set in any order, each member once.
   */
  ghost predicate VisitOrder(b: Bucket, pkgs: seq<string>) {
    match b
    case Listed(items) => pkgs == items
    case Pooled(members) => multiset(pkgs) == multiset(members)
  }

  /** `orders` gives one visiting order for each of the first `|orders|` buckets of `d`. */
  ghost predicate VisitedInOrder(d: Dict<Bucket>, orders: seq<seq<string>>) {
    && |orders| <= |d.order|
    && (forall j :: 0 <= j < |orders| ==> d.order[j] in d.entries && VisitOrder(d.entries[d.order[j]], orders[j]))
  }

  /** `orders` gives one visiting order per bucket of `d`, in key order. */
  ghost predicate VisitOrders(d: Dict<Bucket>, orders: seq<seq<string>>) {
    |orders| == |d.order| && VisitedInOrder(d, orders)
  }

  /** Visiting one more bucket in a valid order extends the orders so far. */
  lemma VisitedSnoc(d: Dict<Bucket>, orders: seq<seq<string>>, next: seq<string>)
    requires d.Valid() && VisitedInOrder(d, orders) && |orders| < |d.order|
    requires VisitOrder(d.entries[d.order[|orders|]], next)
    ensures VisitedInOrder(d, orders + [next])
  {
    var n := orders + [next];
    forall j | 0 <= j < |n|
      ensures d.order[j] in d.entries && VisitOrder(d.entries[d.order[j]], n[j])
    {
      if j < |orders| {
        assert n[j] == orders[j];
      }
    }
  }

  /** The calls for the first `n` buckets of `d` visited in the orders `orders`. */
  ghost function SplitCalls(action: Action, repository: string, target: string, d: Dict<Bucket>,
                            orders: seq<seq<string>>, n: nat): seq<FsCall>
    requires n <= |d.order| && n <= |orders|
  {
    if n == 0 then []
    else
      var targetdir := Join(target, d.order[n - 1]);
      SplitCalls(action, repository, target, d, orders, n - 1)
        + [MakeDir(targetdir)]
        + BucketCalls(action, repository, targetdir, orders[n - 1])
  }

  /** Visiting one more member of a set adds it to the multiset of those visited. */
  lemma VisitStep(members: set<string>, rest: set<string>, visited: seq<string>, pkg: string)
    requires rest <= members && pkg in rest
    requires multiset(visited) == multiset(members - rest)
    ensures multiset(visited + [pkg]) == multiset(members - (rest - {pkg}))
  {
    assert members - (rest - {pkg}) == (members - rest) + {pkg};
    assert pkg !in members - rest;
  }

  /** The inner loop of `perform_split` over a listed bucket. */
  method PlaceListed(action: Action, repository: string, targetdir: string, items: seq<string>)
    returns (calls: seq<FsCall>)
    ensures calls == BucketCalls(action, repository, targetdir, items)
  {
    calls := [];
    for t := 0 to |items|
      invariant calls == BucketCalls(action, repository, targetdir, items[..t])
    {
      assert items[..t + 1][..t] == items[..t];
      var pkg := items[t];
      var pkgfile := Split(pkg).1;
      calls := calls + [Place(action, Join(repository, pkg), Join(targetdir, pkgfile))];
    }
    assert items[..|items|] == items;
  }

  /** The inner loop of `perform_split` over a set bucket, walked in any order. */
  method PlacePooled(action: Action, repository: string, targetdir: string, members: set<string>)
    returns (calls: seq<FsCall>)
    ensures exists visited :: (VisitOrder(Pooled(members), visited)
      && calls == BucketCalls(action, repository, targetdir, visited))
  {
    calls := [];
    ghost var visited: seq<string> := [];
    var rest := members;
    while rest != {}
      invariant rest <= members
      invariant multiset(visited) == multiset(members - rest)
      invariant calls == BucketCalls(action, repository, targetdir, visited)
    {
      var pkg :| pkg in rest;
      VisitStep(members, rest, visited, pkg);
      var pkgfile := Split(pkg).1;
      calls := calls + [Place(action, Join(repository, pkg), Join(targetdir, pkgfile))];
      assert (visited + [pkg])[..|visited|] == visited;
      visited := visited + [pkg];
      rest := rest - {pkg};
    }
    assert members - rest == members;
    assert VisitOrder(Pooled(members), visited);
  }

  /** The inner loop of `perform_split` over one bucket. */
  method PlaceBucket(action: Action, repository: string, targetdir: string, b: Bucket)
    returns (placed: seq<FsCall>)
    ensures exists visited :: (VisitOrder(b, visited)
      && placed == BucketCalls(action, repository, targetdir, visited))
  {
    match b {
      case Listed(items) =>
        placed := PlaceListed(action, repository, targetdir, items);
        assert VisitOrder(b, items);
      case Pooled(members) =>
        placed := PlacePooled(action, repository, targetdir, members);
    }
  }

  /** `calls` are the calls for the buckets visited so far, in the orders `orders`. */
  ghost predicate SplitSoFar(action: Action, repository: string, target: string, d: Dict<Bucket>,
                             orders: seq<seq<string>>, calls: seq<FsCall>) {
    VisitedInOrder(d, orders) && calls == SplitCalls(action, repository, target, d, orders, |orders|)
  }

  /** Splitting one more bucket keeps `SplitSoFar`. */
  lemma SplitSoFarStep(action: Action, repository: string, target: string, d: Dict<Bucket>,
                       orders: seq<seq<string>>, calls: seq<FsCall>, next: seq<string>, placed: seq<FsCall>)
    requires d.Valid() && SplitSoFar(action, repository, target, d, orders, calls) && |orders| < |d.order|
    requires VisitOrder(d.entries[d.order[|orders|]], next)
    requires placed == BucketCalls(action, repository, Join(target, d.order[|orders|]), next)
    ensures SplitSoFar(action, repository, target, d, orders + [next],
      calls + [MakeDir(Join(target, d.order[|orders|]))] + placed)
  {
    var n := |orders|;
    SplitCallsStep(action, repository, target, d, orders, next, n, calls, placed);
    VisitedSnoc(d, orders, next);
    assert |orders + [next]| == n + 1;
  }

  /** `perform_split(repos, args)`, with `args.target`, `args.repository` and `args.action`. */
  method PerformSplit(repos: Dict<Bucket>, target: string, repository: string, action: Action)
    returns (calls: seq<FsCall>)
    requires repos.Valid()
    ensures exists orders :: (VisitOrders(repos, orders)
      && calls == SplitCalls(action, repository, target, repos, orders, |repos.order|))
  {
    calls := [];
    ghost var orders: seq<seq<string>> := [];
    for i := 0 to |repos.order|
      invariant |orders| == i
      invariant SplitSoFar(action, repository, target, repos, orders, calls)
    {
      var modname := repos.order[i];
      var targetdir := Join(target, modname);
      ghost var before := calls;
      calls := calls + [MakeDir(targetdir)];
      var placed := PlaceBucket(action, repository, targetdir, repos.entries[modname]);
      ghost var visited :| VisitOrder(repos.entries[modname], visited)
        && placed == BucketCalls(action, repository, targetdir, visited);
      SplitSoFarStep(action, repository, target, repos, orders, before, visited, placed);
      calls := calls + placed;
      orders := orders + [visited];
    }
  }

  /** Visiting bucket `n` in the order `next` appends its directory and its placements. */
  lemma SplitCallsStep(action: Action, repository: string, target: string, d: Dict<Bucket>,
                       orders: seq<seq<string>>, next: seq<string>, n: nat, prefix: seq<FsCall>, placed: seq<FsCall>)
    requires n == |orders| && n < |d.order|
    requires prefix == SplitCalls(action, repository, target, d, orders, n)
    requires placed == BucketCalls(action, repository, Join(target, d.order[n]), next)
    ensures prefix + [MakeDir(Join(target, d.order[n]))] + placed
      == SplitCalls(action, repository, target, d, orders + [next], n + 1)
  {
    SplitCallsPrefix(action, repository, target, d, orders, next, n);
    assert (orders + [next])[n] == next;
  }

  /** The calls for the first `n` buckets depend only on the first `n` orders. */
  lemma {:induction false} SplitCallsPrefix(action: Action, repository: string, target: string, d: Dict<Bucket>,
                                            orders: seq<seq<string>>, next: seq<string>, n: nat)
    requires n <= |orders| && n < |d.order|
    ensures SplitCalls(action, repository, target, d, orders + [next], n)
      == SplitCalls(action, repository, target, d, orders, n)
  {
    if n > 0 {
      SplitCallsPrefix(action, repository, target, d, orders, next, n - 1);
      assert (orders + [next])[n - 1] == orders[n - 1];
    }
  }
}

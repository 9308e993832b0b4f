/**
 `validate_filenames`: every location of every bucket is checked against the
 repository directory; every missing one is reported and the walk goes on.
 The file system is the set of joined paths that exist.
 */
module Validation {
  import opened Dicts
  import opened PosixPath
  import opened Partition

  /** One printed line, "Path <path> from mod <bucket> did not exist". */
  datatype Report = Report(path: string, bucket: string)

  predicate Missing(directory: string, existing: set<string>, pkg: string) {
    Join(directory, pkg) !in existing
  }

  /** The reports for a listed bucket, in list order. */
  function ListedReports(directory: string, existing: set<string>, key: string, items: seq<string>): seq<Report>
  {
    if items == [] then []
    else
      var last := items[|items| - 1];
      ListedReports(directory, existing, key, items[..|items| - 1])
        + (if Missing(directory, existing, last) then [Report(last, key)] else [])
  }

  /** The reports for a set bucket; the order in which a set is walked is not fixed. */
  ghost function PooledReports(directory: string, existing: set<string>, key: string, members: set<string>): set<Report>
  {
    set p | p in members && Missing(directory, existing, p) :: Report(p, key)
  }

  ghost function BucketReports(directory: string, existing: set<string>, key: string, b: Bucket): multiset<Report>
  {
    match b
    case Listed(items) => multiset(ListedReports(directory, existing, key, items))
    case Pooled(members) => multiset(PooledReports(directory, existing, key, members))
  }

  /** The reports for the first `n` buckets of `d`, in key order. */
  ghost function AllReports(directory: string, existing: set<string>, d: Dict<Bucket>, n: nat): multiset<Report>
    requires d.Valid() && n <= |d.order|
  {
    if n == 0 then multiset{}
    else
      var k := d.order[n - 1];
      AllReports(directory, existing, d, n - 1) + BucketReports(directory, existing, k, d.entries[k])
  }

  /** Every location of every bucket exists under `directory`. */
  ghost predicate AllPresent(directory: string, existing: set<string>, d: Dict<Bucket>) {
    forall k, p :: k in d.entries && p in Paths(d.entries[k]) ==> !Missing(directory, existing, p)
  }

  ghost predicate BucketPresent(directory: string, existing: set<string>, b: Bucket) {
    forall p :: p in Paths(b) ==> !Missing(directory, existing, p)
  }

  /** A listed bucket yields no report iff all of its locations exist. */
  lemma {:induction false} ListedReportsEmpty(directory: string, existing: set<string>, key: string, items: seq<string>)
    ensures ListedReports(directory, existing, key, items) == []
      <==> forall p :: p in items ==> !Missing(directory, existing, p)
  {
    if items != [] {
      var init := items[..|items| - 1];
      ListedReportsEmpty(directory, existing, key, init);
      assert items == init + [items[|items| - 1]];
    }
  }

  /** A bucket yields no report iff all of its locations exist. */
  lemma BucketReportsEmpty(directory: string, existing: set<string>, key: string, b: Bucket)
    ensures BucketReports(directory, existing, key, b) == multiset{} <==> BucketPresent(directory, existing, b)
  {
    match b
    case Listed(items) =>
      ListedReportsEmpty(directory, existing, key, items);
    case Pooled(members) =>
      forall p | p in members && Missing(directory, existing, p)
        ensures Report(p, key) in PooledReports(directory, existing, key, members) {
      }
  }

  ghost predicate PresentUpTo(directory: string, existing: set<string>, d: Dict<Bucket>, n: nat)
    requires d.Valid() && n <= |d.order|
  {
    forall j :: 0 <= j < n ==> BucketPresent(directory, existing, d.entries[d.order[j]])
  }

  lemma PresentUpToStep(directory: string, existing: set<string>, d: Dict<Bucket>, n: nat)
    requires d.Valid() && 0 < n <= |d.order|
    ensures PresentUpTo(directory, existing, d, n)
      <==> PresentUpTo(directory, existing, d, n - 1) && BucketPresent(directory, existing, d.entries[d.order[n - 1]])
  {
  }

  /** The first `n` buckets yield no report iff all of their locations exist. */
  lemma {:induction false} AllReportsEmpty(directory: string, existing: set<string>, d: Dict<Bucket>, n: nat)
    requires d.Valid() && n <= |d.order|
    ensures AllReports(directory, existing, d, n) == multiset{} <==> PresentUpTo(directory, existing, d, n)
  {
    if n > 0 {
      var k := d.order[n - 1];
      var head := AllReports(directory, existing, d, n - 1);
      var last := BucketReports(directory, existing, k, d.entries[k]);
      AllReportsEmpty(directory, existing, d, n - 1);
      BucketReportsEmpty(directory, existing, k, d.entries[k]);
      assert head + last == multiset{} <==> head == multiset{} && last == multiset{} by {
        assert |head + last| == |head| + |last|;
      }
      PresentUpToStep(directory, existing, d, n);
    }
  }

  /** Adding one unvisited member to a set bucket's walk adds at most its one report. */
  lemma PooledStep(directory: string, existing: set<string>, key: string, done: set<string>, x: string)
    requires x !in done
    ensures multiset(PooledReports(directory, existing, key, done + {x}))
      == multiset(PooledReports(directory, existing, key, done))
        + (if Missing(directory, existing, x) then multiset{Report(x, key)} else multiset{})
  {
    var before := PooledReports(directory, existing, key, done);
    var after := PooledReports(directory, existing, key, done + {x});
    if Missing(directory, existing, x) {
      assert after == before + {Report(x, key)};
      assert Report(x, key) !in before;
    } else {
      assert after == before;
    }
  }

  lemma PresentByKeyOrder(directory: string, existing: set<string>, d: Dict<Bucket>)
    requires d.Valid()
    ensures AllPresent(directory, existing, d) <==> PresentUpTo(directory, existing, d, |d.order|)
  {
    forall k | k in d.entries ensures exists j :: 0 <= j < |d.order| && d.order[j] == k {
    }
  }

  /** The state after checking the first `n` buckets: `isok` holds iff nothing was reported. */
  ghost predicate CheckedSoFar(directory: string, existing: set<string>, d: Dict<Bucket>, n: nat,
                               isok: bool, reports: seq<Report>)
    requires d.Valid() && n <= |d.order|
  {
    (isok <==> reports == []) && multiset(reports) == AllReports(directory, existing, d, n)
  }

  /** Checking one more bucket appends its reports and keeps `CheckedSoFar`. */
  lemma CheckedStep(directory: string, existing: set<string>, d: Dict<Bucket>, n: nat,
                    isok: bool, reports: seq<Report>, missing: seq<Report>)
    requires d.Valid() && n < |d.order| && CheckedSoFar(directory, existing, d, n, isok, reports)
    requires multiset(missing) == BucketReports(directory, existing, d.order[n], d.entries[d.order[n]])
    ensures CheckedSoFar(directory, existing, d, n + 1, isok && missing == [], reports + missing)
  {
    assert |reports + missing| == |reports| + |missing|;
    assert multiset(reports + missing) == multiset(reports) + multiset(missing);
  }

  /** The inner loop of `validate_filenames` over a listed bucket: its reports in list order. */
  method CheckListed(directory: string, existing: set<string>, key: string, items: seq<string>)
    returns (missing: seq<Report>)
    ensures missing == ListedReports(directory, existing, key, items)
  {
    missing := [];
    for t := 0 to |items|
      invariant missing == ListedReports(directory, existing, key, items[..t])
    {
      assert items[..t + 1][..t] == items[..t];
      var pkg := items[t];
      if !(Join(directory, pkg) in existing) {
        missing := missing + [Report(pkg, key)];
      }
    }
    assert items[..|items|] == items;
  }

  /** The inner loop of `validate_filenames` over a set bucket, walked in any order. */
  method CheckPooled(directory: string, existing: set<string>, key: string, members: set<string>)
    returns (missing: seq<Report>)
    ensures multiset(missing) == multiset(PooledReports(directory, existing, key, members))
  {
    missing := [];
    var rest := members;
    while rest != {}
      invariant rest <= members
      invariant multiset(missing) == multiset(PooledReports(directory, existing, key, members - rest))
    {
      var pkg :| pkg in rest;
      PooledStep(directory, existing, key, members - rest, pkg);
      assert members - (rest - {pkg}) == (members - rest) + {pkg};
      if !(Join(directory, pkg) in existing) {
        missing := missing + [Report(pkg, key)];
      }
      rest := rest - {pkg};
    }
    assert members - rest == members;
  }

  /** The inner loop of `validate_filenames` over one bucket. */
  method CheckBucket(directory: string, existing: set<string>, key: string, b: Bucket)
    returns (missing: seq<Report>)
    ensures multiset(missing) == BucketReports(directory, existing, key, b)
  {
    match b {
      case Listed(items) =>
        missing := CheckListed(directory, existing, key, items);
      case Pooled(members) =>
        missing := CheckPooled(directory, existing, key, members);
    }
  }

  /**
   `validate_filenames(directory, repoinfo)`: `isok` turns false at the first
   missing location, and every missing location is reported.
   */
  method ValidateFilenames(directory: string, repoinfo: Dict<Bucket>, existing: set<string>)
    returns (isok: bool, reports: seq<Report>)
    requires repoinfo.Valid()
    ensures isok <==> AllPresent(directory, existing, repoinfo)
    ensures isok <==> reports == []
    ensures multiset(reports) == AllReports(directory, existing, repoinfo, |repoinfo.order|)
  {
    isok := true;
    reports := [];
    for i := 0 to |repoinfo.order|
      invariant CheckedSoFar(directory, existing, repoinfo, i, isok, reports)
    {
      var modname := repoinfo.order[i];
      var missing := CheckBucket(directory, existing, modname, repoinfo.entries[modname]);
      CheckedStep(directory, existing, repoinfo, i, isok, reports, missing);
      if missing != [] {
        isok := false;
      }
      reports := reports + missing;
      assert CheckedSoFar(directory, existing, repoinfo, i + 1, isok, reports);
    }
    AllReportsEmpty(directory, existing, repoinfo, |repoinfo.order|);
    PresentByKeyOrder(directory, existing, repoinfo);
  }
}

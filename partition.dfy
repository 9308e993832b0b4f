/**
 The partition resolver: `_parse_repository_modular` builds one bucket per
 module stream, `_get_modular_pkgset` unions them, `_parse_repository_non_modular`
 collects every other location of the sack, and `parse_repository` adds that
 set to the dictionary under the key "non_modular".
 */
module Partition {
  import opened Wrappers
  import opened Dicts
  import opened Packages
  import opened Modulemd

  const NonModularKey: string := "non_modular"

  /** A module stream's bucket is a list; the non-modular bucket is a set. */
  datatype Bucket = Listed(items: seq<string>) | Pooled(members: set<string>)

  function Paths(b: Bucket): set<string> {
    match b
    case Listed(items) => set x | x in items
    case Pooled(members) => members
  }

  /** The two exceptions raised after reading the module document. */
  datatype ParseError =
    | YamlFailures(failures: seq<string>)  // `failures` is not empty
    | YamlRejected                         // `res` is false

  // ---------------------------------------------------------------------
  // Per-stream lookup
  // ---------------------------------------------------------------------

  /**
   A stream's bucket: the file-list location of each artifact that is a key
   of the file list, in artifact order; other artifacts are skipped.
   */
  function Lookup(artifacts: seq<string>, fl: map<string, string>): seq<string>
  {
    if artifacts == [] then []
    else
      var a := artifacts[|artifacts| - 1];
      Lookup(artifacts[..|artifacts| - 1], fl) + (if a in fl then [fl[a]] else [])
  }

  /** The inner loop of `_parse_repository_modular`, filling `templ`. */
  method CollectBucket(artifacts: seq<string>, fl: map<string, string>) returns (templ: seq<string>)
    ensures templ == Lookup(artifacts, fl)
  {
    templ := [];
    for i := 0 to |artifacts|
      invariant templ == Lookup(artifacts[..i], fl)
    {
      assert artifacts[..i + 1][..i] == artifacts[..i];
      var pkg := artifacts[i];
      if pkg in fl {
        templ := templ + [fl[pkg]];
      }
    }
    assert artifacts[..|artifacts|] == artifacts;
  }

  /** A bucket never holds more locations than its stream declares artifacts. */
  lemma {:induction false} LookupBound(artifacts: seq<string>, fl: map<string, string>)
    ensures |Lookup(artifacts, fl)| <= |artifacts|
  {
    if artifacts != [] {
      LookupBound(artifacts[..|artifacts| - 1], fl);
    }
  }

  /**
   Lookup keeps artifact order: the bucket of a concatenation is the
   concatenation of the buckets.
   */
  lemma {:induction false} LookupAppend(xs: seq<string>, ys: seq<string>, fl: map<string, string>)
    ensures Lookup(xs + ys, fl) == Lookup(xs, fl) + Lookup(ys, fl)
  {
    if ys == [] {
      assert xs + ys == xs;
    } else {
      var init := ys[..|ys| - 1];
      assert (xs + ys)[..|xs + ys| - 1] == xs + init;
      LookupAppend(xs, init, fl);
    }
  }

  /** A location is in a stream's bucket iff some declared artifact found in the file list maps to it. */
  lemma {:induction false} LookupMembers(artifacts: seq<string>, fl: map<string, string>, x: string)
    ensures x in Lookup(artifacts, fl) <==> exists a :: a in artifacts && a in fl && fl[a] == x
  {
    if artifacts != [] {
      var init := artifacts[..|artifacts| - 1];
      var a := artifacts[|artifacts| - 1];
      LookupMembers(init, fl, x);
      assert artifacts == init + [a];
    }
  }

  // ---------------------------------------------------------------------
  // The stream table
  // ---------------------------------------------------------------------

  /** `streams[i]` is the last stream whose NSVCA is `k`. */
  ghost predicate LastStream(streams: seq<Stream>, i: int, k: string) {
    && 0 <= i < |streams|
    && streams[i].nsvca == k
    && forall j :: i < j < |streams| ==> streams[j].nsvca != k
  }

  lemma LastStreamExtend(streams: seq<Stream>, i: int, k: string)
    requires streams != [] && streams[|streams| - 1].nsvca != k
    requires LastStream(streams[..|streams| - 1], i, k)
    ensures LastStream(streams, i, k) && streams[i] == streams[..|streams| - 1][i]
  {
    var init := streams[..|streams| - 1];
    forall j | i < j < |streams| ensures streams[j].nsvca != k {
      if j < |streams| - 1 { assert streams[j] == init[j]; }
    }
  }

  /**
   The dictionary `cts`: every stream in order assigns its bucket under its
   NSVCA, so a later stream with the same NSVCA replaces an earlier one.
   */
  ghost function StreamTable(streams: seq<Stream>, fl: map<string, string>): (d: Dict<Bucket>)
    ensures d.Valid()
    ensures forall k :: k in d.entries ==> d.entries[k].Listed?
  {
    if streams == [] then Empty()
    else
      var s := streams[|streams| - 1];
      Put(StreamTable(streams[..|streams| - 1], fl), s.nsvca, Listed(Lookup(s.artifacts, fl)))
  }

  /** The table's keys are exactly the streams' NSVCAs. */
  lemma {:induction false} StreamTableKeys(streams: seq<Stream>, fl: map<string, string>)
    ensures StreamTable(streams, fl).entries.Keys == set s | s in streams :: s.nsvca
  {
    if streams != [] {
      var init := streams[..|streams| - 1];
      var last := streams[|streams| - 1];
      StreamTableKeys(init, fl);
      assert StreamTable(streams, fl).entries.Keys == StreamTable(init, fl).entries.Keys + {last.nsvca};
    }
  }

  /** The last stream with a given NSVCA owns that key's bucket. */
  lemma {:induction false} StreamTableLastWins(streams: seq<Stream>, fl: map<string, string>, i: int, k: string)
    requires LastStream(streams, i, k)
    ensures k in StreamTable(streams, fl).entries
    ensures StreamTable(streams, fl).entries[k] == Listed(Lookup(streams[i].artifacts, fl))
  {
    if i < |streams| - 1 {
      var init := streams[..|streams| - 1];
      assert init[i] == streams[i];
      StreamTableLastWins(init, fl, i, k);
    }
  }

  /** Every bucket of the table is the bucket of the last stream with its key. */
  lemma {:induction false} StreamTableFrom(streams: seq<Stream>, fl: map<string, string>, k: string)
    requires k in StreamTable(streams, fl).entries
    ensures exists i ::
      LastStream(streams, i, k) && StreamTable(streams, fl).entries[k] == Listed(Lookup(streams[i].artifacts, fl))
  {
    var n := |streams| - 1;
    if streams[n].nsvca == k {
      assert LastStream(streams, n, k);
    } else {
      var init := streams[..n];
      var d := StreamTable(init, fl);
      assert StreamTable(streams, fl) == Put(d, streams[n].nsvca, Listed(Lookup(streams[n].artifacts, fl)));
      assert k in d.entries && StreamTable(streams, fl).entries[k] == d.entries[k];
      StreamTableFrom(init, fl, k);
      var i :| LastStream(init, i, k) && d.entries[k] == Listed(Lookup(init[i].artifacts, fl));
      LastStreamExtend(streams, i, k);
    }
  }

  lemma StreamTableStep(done: seq<Stream>, streams: seq<Stream>, j: nat, fl: map<string, string>)
    requires j < |streams|
    ensures StreamTable(done + streams[..j + 1], fl)
      == Put(StreamTable(done + streams[..j], fl), streams[j].nsvca, Listed(Lookup(streams[j].artifacts, fl)))
  {
    assert (done + streams[..j + 1])[..|done| + j] == done + streams[..j];
  }

  lemma AllStreamsSnoc(ms: seq<Module>, i: nat)
    requires i < |ms|
    ensures AllStreams(ms[..i + 1]) == AllStreams(ms[..i]) + ms[i].streams
  {
    assert ms[..i + 1][..i] == ms[..i];
  }

  /** `_parse_repository_modular`: the failure checks, then the loop over modules and streams. */
  method ParseModular(outcome: ParseOutcome, sack: seq<Package>) returns (r: Result<Dict<Bucket>, ParseError>)
    ensures |outcome.failures| != 0 ==> r == Err(YamlFailures(outcome.failures))
    ensures |outcome.failures| == 0 && !outcome.res ==> r == Err(YamlRejected)
    ensures |outcome.failures| == 0 && outcome.res ==>
      r == Ok(StreamTable(AllStreams(outcome.modules), FilelistOf(sack)))
  {
    if |outcome.failures| != 0 {
      return Err(YamlFailures(outcome.failures));
    }
    if !outcome.res {
      return Err(YamlRejected);
    }
    var pkgsList := GetFilelist(sack);
    var mods := outcome.modules;
    var cts: Dict<Bucket> := Empty();
    for i := 0 to |mods|
      invariant cts == StreamTable(AllStreams(mods[..i]), pkgsList)
    {
      ghost var done := AllStreams(mods[..i]);
      var streams := mods[i].streams;
      assert done + streams[..0] == done;
      for j := 0 to |streams|
        invariant cts == StreamTable(done + streams[..j], pkgsList)
      {
        var templ := CollectBucket(streams[j].artifacts, pkgsList);
        cts := Put(cts, streams[j].nsvca, Listed(templ));
        StreamTableStep(done, streams, j, pkgsList);
      }
      assert done + streams[..|streams|] == done + streams;
      AllStreamsSnoc(mods, i);
    }
    assert mods[..|mods|] == mods;
    return Ok(cts);
  }

  // ---------------------------------------------------------------------
  // Modular and non-modular locations
  // ---------------------------------------------------------------------

  /** Every location held by some bucket of `d`. */
  ghost function ModularSet(d: Dict<Bucket>): set<string> {
    set k, p | k in d.entries && p in Paths(d.entries[k]) :: p
  }

  /** `_get_modular_pkgset`: the duplicate-free union of all buckets. */
  method ModularPkgset(mod: Dict<Bucket>) returns (pkgs: set<string>)
    requires mod.Valid()
    ensures forall p :: p in pkgs <==> exists k :: k in mod.entries && p in Paths(mod.entries[k])
  {
    pkgs := {};
    for i := 0 to |mod.order|
      invariant forall p :: p in pkgs <==> exists j :: 0 <= j < i && p in Paths(mod.entries[mod.order[j]])
    {
      ghost var before := pkgs;
      match mod.entries[mod.order[i]]
      case Listed(items) =>
        for t := 0 to |items|
          invariant pkgs == before + set x | x in items[..t]
        {
          assert items[..t + 1] == items[..t] + [items[t]];
          pkgs := pkgs + {items[t]};
        }
        assert items[..|items|] == items;
      case Pooled(members) =>
        var rest := members;
        while rest != {}
          invariant rest <= members
          invariant pkgs == before + (members - rest)
        {
          var x :| x in rest;
          pkgs := pkgs + {x};
          rest := rest - {x};
        }
    }
    forall p | exists k :: k in mod.entries && p in Paths(mod.entries[k])
      ensures p in pkgs
    {
      var k :| k in mod.entries && p in Paths(mod.entries[k]);
      var j :| 0 <= j < |mod.order| && mod.order[j] == k;
    }
  }

  /** The locations of the sack's packages that are not in `modset`. */
  ghost function NonModularSet(sack: seq<Package>, modset: set<string>): set<string> {
    set p | p in sack && p.location !in modset :: p.location
  }

  /** `_parse_repository_non_modular`: the filter compares locations. */
  method NonModular(sack: seq<Package>, modset: set<string>) returns (pkgs: set<string>)
    ensures forall l :: l in pkgs <==> l !in modset && exists p :: p in sack && p.location == l
  {
    pkgs := {};
    for i := 0 to |sack|
      invariant forall l :: l in pkgs <==> l !in modset && exists j :: 0 <= j < i && sack[j].location == l
    {
      if sack[i].location in modset {
        continue;
      }
      pkgs := pkgs + {sack[i].location};
    }
  }

  // ---------------------------------------------------------------------
  // The assembled partition
  // ---------------------------------------------------------------------

  /** What `parse_repository` returns, or the exception it raises. */
  ghost function PartitionOf(outcome: ParseOutcome, sack: seq<Package>): Result<Dict<Bucket>, ParseError>
  {
    if |outcome.failures| != 0 then Err(YamlFailures(outcome.failures))
    else if !outcome.res then Err(YamlRejected)
    else
      var cts := StreamTable(AllStreams(outcome.modules), FilelistOf(sack));
      Ok(Put(cts, NonModularKey, Pooled(NonModularSet(sack, ModularSet(cts)))))
  }

  /** `parse_repository` from the point where the sack is loaded. */
  method ParseRepository(outcome: ParseOutcome, sack: seq<Package>) returns (r: Result<Dict<Bucket>, ParseError>)
    ensures r.Err? <==> |outcome.failures| != 0 || !outcome.res
    ensures r == PartitionOf(outcome, sack)
  {
    var mod := ParseModular(outcome, sack);
    if mod.Err? {
      return mod;
    }
    var cts := mod.value;
    var modpkgset := ModularPkgset(cts);
    assert modpkgset == ModularSet(cts);
    var nonModular := NonModular(sack, modpkgset);
    assert nonModular == NonModularSet(sack, modpkgset);
    return Ok(Put(cts, NonModularKey, Pooled(nonModular)));
  }
}

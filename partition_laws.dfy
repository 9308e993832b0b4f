/**
 What the partition returned by `parse_repository` guarantees: its keys, the
 content of each stream bucket, where every module location comes from, and
 how the "non_modular" bucket divides the sack with the module buckets.
 */
module PartitionLaws {
  import opened Dicts
  import opened Packages
  import opened Modulemd
  import opened Partition

  /** Reading the module document reported no failure and `res` was true. */
  ghost predicate Parsed(outcome: ParseOutcome) {
    |outcome.failures| == 0 && outcome.res
  }

  /** The NSVCAs of all streams of the index. */
  ghost function StreamKeys(outcome: ParseOutcome): set<string> {
    set s | s in AllStreams(outcome.modules) :: s.nsvca
  }

  /** The partition, once parsing succeeded. */
  ghost function PartitionTable(outcome: ParseOutcome, sack: seq<Package>): Dict<Bucket>
    requires Parsed(outcome)
  {
    PartitionOf(outcome, sack).value
  }

  /** `l` lies in a bucket under some key other than "non_modular". */
  ghost predicate InModuleBucket(t: Dict<Bucket>, l: string) {
    exists k :: k in t.entries && k != NonModularKey && l in Paths(t.entries[k])
  }

  /** The locations held by the "non_modular" bucket. */
  ghost function NonModularMembers(t: Dict<Bucket>): set<string> {
    if NonModularKey in t.entries then Paths(t.entries[NonModularKey]) else {}
  }

  /**
   The partition's keys are the streams' NSVCAs plus "non_modular", which is
   a set and, unless some stream already used that key, comes last.
   */
  lemma PartitionKeys(outcome: ParseOutcome, sack: seq<Package>)
    requires Parsed(outcome)
    ensures PartitionTable(outcome, sack).Valid()
    ensures PartitionTable(outcome, sack).entries.Keys == StreamKeys(outcome) + {NonModularKey}
    ensures PartitionTable(outcome, sack).entries[NonModularKey].Pooled?
    ensures NonModularKey !in StreamKeys(outcome) ==>
      var t := PartitionTable(outcome, sack); |t.order| > 0 && t.order[|t.order| - 1] == NonModularKey
  {
    var ss := AllStreams(outcome.modules);
    var cts := StreamTable(ss, FilelistOf(sack));
    StreamTableKeys(ss, FilelistOf(sack));
    assert PartitionTable(outcome, sack)
      == Put(cts, NonModularKey, Pooled(NonModularSet(sack, ModularSet(cts))));
  }

  /**
   The bucket under a stream's NSVCA is the lookup of the artifacts of the
   last stream with that NSVCA, and is never longer than its artifact list.
   */
  lemma PartitionStreamBucket(outcome: ParseOutcome, sack: seq<Package>, i: int, k: string)
    requires Parsed(outcome)
    requires LastStream(AllStreams(outcome.modules), i, k) && k != NonModularKey
    ensures k in PartitionTable(outcome, sack).entries
    ensures PartitionTable(outcome, sack).entries[k]
      == Listed(Lookup(AllStreams(outcome.modules)[i].artifacts, FilelistOf(sack)))
    ensures |PartitionTable(outcome, sack).entries[k].items| <= |AllStreams(outcome.modules)[i].artifacts|
  {
    var ss := AllStreams(outcome.modules);
    var fl := FilelistOf(sack);
    StreamTableLastWins(ss, fl, i, k);
    LookupBound(ss[i].artifacts, fl);
  }

  /**
   Every location in a module bucket is the location of a package of the
   sack whose key a stream with that bucket's NSVCA declares.
   */
  lemma PartitionProvenance(outcome: ParseOutcome, sack: seq<Package>, k: string, p: string)
    requires Parsed(outcome)
    requires k in PartitionTable(outcome, sack).entries && k != NonModularKey
    requires p in Paths(PartitionTable(outcome, sack).entries[k])
    ensures exists s, q ::
      (s in AllStreams(outcome.modules) && q in sack && s.nsvca == k && q.location == p && Nevra(q) in s.artifacts)
  {
    var ss := AllStreams(outcome.modules);
    var fl := FilelistOf(sack);
    var cts := StreamTable(ss, fl);
    assert PartitionTable(outcome, sack).entries[k] == cts.entries[k];
    StreamTableFrom(ss, fl, k);
    var i :| LastStream(ss, i, k) && cts.entries[k] == Listed(Lookup(ss[i].artifacts, fl));
    LookupMembers(ss[i].artifacts, fl, p);
    var a :| a in ss[i].artifacts && a in fl && fl[a] == p;
    FilelistFromSack(sack, a);
    var j :| LastWithKey(sack, j, a) && fl[a] == sack[j].location;
    assert ss[i] in ss && sack[j] in sack;
  }

  /** A module bucket shares no location with the "non_modular" bucket. */
  lemma NonModularDisjoint(outcome: ParseOutcome, sack: seq<Package>, k: string)
    requires Parsed(outcome)
    requires k in PartitionTable(outcome, sack).entries && k != NonModularKey
    ensures Paths(PartitionTable(outcome, sack).entries[k])
      !! NonModularMembers(PartitionTable(outcome, sack))
  {
    var ss := AllStreams(outcome.modules);
    var cts := StreamTable(ss, FilelistOf(sack));
    var t := PartitionTable(outcome, sack);
    assert t == Put(cts, NonModularKey, Pooled(NonModularSet(sack, ModularSet(cts))));
    assert t.entries[k] == cts.entries[k];
    forall p | p in Paths(t.entries[k]) ensures p in ModularSet(cts) {
    }
  }

  /**
   Every location of the sack is in exactly one of the "non_modular" bucket
   and the module buckets (possibly several of those), provided no stream's
   NSVCA is "non_modular" itself.
   */
  lemma NonModularIffUnclaimed(outcome: ParseOutcome, sack: seq<Package>, q: Package)
    requires Parsed(outcome)
    requires q in sack
    requires NonModularKey !in StreamKeys(outcome)
    ensures q.location in NonModularMembers(PartitionTable(outcome, sack))
      <==> !InModuleBucket(PartitionTable(outcome, sack), q.location)
  {
    var ss := AllStreams(outcome.modules);
    var cts := StreamTable(ss, FilelistOf(sack));
    var t := PartitionTable(outcome, sack);
    StreamTableKeys(ss, FilelistOf(sack));
    assert t == Put(cts, NonModularKey, Pooled(NonModularSet(sack, ModularSet(cts))));
    if q.location in ModularSet(cts) {
      var k :| k in cts.entries && q.location in Paths(cts.entries[k]);
      assert k != NonModularKey && t.entries[k] == cts.entries[k];
      NonModularDisjoint(outcome, sack, k);
    } else {
      assert q.location in NonModularSet(sack, ModularSet(cts));
      forall k | k in t.entries && k != NonModularKey ensures q.location !in Paths(t.entries[k]) {
        assert t.entries[k] == cts.entries[k];
      }
    }
  }

  /** The partition is the stream table with the "non_modular" set put last. */
  lemma PartitionUnfold(outcome: ParseOutcome, sack: seq<Package>)
    requires Parsed(outcome)
    ensures var cts := StreamTable(AllStreams(outcome.modules), FilelistOf(sack));
      PartitionTable(outcome, sack) == Put(cts, NonModularKey, Pooled(NonModularSet(sack, ModularSet(cts))))
  {
  }

  /** A modular location is never non-modular. */
  lemma ModularExcluded(sack: seq<Package>, modset: set<string>, loc: string)
    requires loc in modset
    ensures loc !in NonModularSet(sack, modset)
  {
  }

  /** Putting the "non_modular" set leaves every other bucket's locations where they were. */
  lemma PutNonModular(cts: Dict<Bucket>, sack: seq<Package>, k: string, loc: string)
    requires cts.Valid() && k in cts.entries && loc in Paths(cts.entries[k])
    ensures var t := Put(cts, NonModularKey, Pooled(NonModularSet(sack, ModularSet(cts))));
      && loc !in NonModularMembers(t)
      && k in t.entries
      && (k != NonModularKey ==> loc in Paths(t.entries[k]))
  {
    assert loc in ModularSet(cts);
    ModularExcluded(sack, ModularSet(cts), loc);
  }

  /** A location in a stream's bucket stays in that bucket and is not non-modular. */
  lemma StreamBucketPlaced(outcome: ParseOutcome, sack: seq<Package>, k: string, loc: string)
    requires Parsed(outcome)
    requires var cts := StreamTable(AllStreams(outcome.modules), FilelistOf(sack));
      k in cts.entries && loc in Paths(cts.entries[k])
    ensures loc !in NonModularMembers(PartitionTable(outcome, sack))
    ensures k in PartitionTable(outcome, sack).entries
    ensures k != NonModularKey ==> loc in Paths(PartitionTable(outcome, sack).entries[k])
  {
    var cts := StreamTable(AllStreams(outcome.modules), FilelistOf(sack));
    PartitionUnfold(outcome, sack);
    PutNonModular(cts, sack, k, loc);
  }

  /**
   A package that is the last in the sack with its key, and whose key the
   last stream with NSVCA `k` declares, has its location in that stream's bucket.
   */
  lemma DeclaredInStreamTable(ss: seq<Stream>, sack: seq<Package>, i: int, k: string, j: int)
    requires 0 <= j < |sack| && LastWithKey(sack, j, Nevra(sack[j]))
    requires LastStream(ss, i, k)
    requires Nevra(sack[j]) in ss[i].artifacts
    ensures var cts := StreamTable(ss, FilelistOf(sack));
      k in cts.entries && sack[j].location in Paths(cts.entries[k])
  {
    var fl := FilelistOf(sack);
    FilelistLastWins(sack, j, Nevra(sack[j]));
    LookupMembers(ss[i].artifacts, fl, sack[j].location);
    StreamTableLastWins(ss, fl, i, k);
  }

  /**
   A package that no later package shadows in the file list, and whose key
   the surviving stream of an NSVCA declares, lands in that stream's bucket
   and not in "non_modular".
   */
  lemma DeclaredIsModular(outcome: ParseOutcome, sack: seq<Package>, i: int, k: string, j: int)
    requires Parsed(outcome)
    requires 0 <= j < |sack| && LastWithKey(sack, j, Nevra(sack[j]))
    requires LastStream(AllStreams(outcome.modules), i, k)
    requires Nevra(sack[j]) in AllStreams(outcome.modules)[i].artifacts
    ensures sack[j].location !in NonModularMembers(PartitionTable(outcome, sack))
    ensures k in PartitionTable(outcome, sack).entries
    ensures k != NonModularKey ==> sack[j].location in Paths(PartitionTable(outcome, sack).entries[k])
  {
    DeclaredInStreamTable(AllStreams(outcome.modules), sack, i, k, j);
    StreamBucketPlaced(outcome, sack, k, sack[j].location);
  }

  /**
   Without the hypothesis of NonModularIffUnclaimed a package can vanish: a
   stream whose NSVCA is "non_modular" claims it, and the later assignment
   of the non-modular set replaces that stream's bucket.
   */
  lemma CollidingKeyDropsPackage()
    ensures var q := Package("a", 0, "1", "1", "noarch", "a.rpm");
      var outcome := ParseOutcome(true, [], [Module("m", [Stream(NonModularKey, [Nevra(q)])])]);
      Parsed(outcome)
      && q.location !in NonModularMembers(PartitionTable(outcome, [q]))
      && !InModuleBucket(PartitionTable(outcome, [q]), q.location)
  {
    var q := Package("a", 0, "1", "1", "noarch", "a.rpm");
    var s := Stream(NonModularKey, [Nevra(q)]);
    var outcome := ParseOutcome(true, [], [Module("m", [s])]);
    var sack := [q];
    var ss := AllStreams(outcome.modules);
    assert outcome.modules[..0] == [];
    assert AllStreams(outcome.modules[..0]) == [];
    assert ss == [s];
    var fl := FilelistOf(sack);
    assert sack[..0] == [];
    assert FilelistOf(sack[..0]) == map[];
    assert fl == map[Nevra(q) := q.location];
    var cts := StreamTable(ss, fl);
    assert s.artifacts[..0] == [];
    assert Lookup(s.artifacts[..0], fl) == [];
    assert Lookup(s.artifacts, fl) == [q.location];
    assert ss[..0] == [];
    assert StreamTable(ss[..0], fl) == Empty();
    assert cts.entries == map[NonModularKey := Listed([q.location])];
    assert Paths(cts.entries[NonModularKey]) == {q.location};
    assert q.location in ModularSet(cts);
    var t := PartitionTable(outcome, sack);
    assert t == Put(cts, NonModularKey, Pooled(NonModularSet(sack, ModularSet(cts))));
    assert t.entries.Keys == {NonModularKey};
    assert NonModularSet(sack, ModularSet(cts)) == {};
  }

  /**
   The "non_modular" bucket filters by location, not by identity: a package
   shadowed in the file list by a later package with the same key is
   non-modular, even when a stream declares that key, as long as no other
   package shares its location.
   */
  lemma ShadowedPackageIsNonModular(outcome: ParseOutcome, sack: seq<Package>, i: int, j: int)
    requires Parsed(outcome)
    requires 0 <= i < j < |sack| && Nevra(sack[i]) == Nevra(sack[j])
    requires forall m :: 0 <= m < |sack| && m != i ==> sack[m].location != sack[i].location
    ensures sack[i].location in NonModularMembers(PartitionTable(outcome, sack))
  {
    var cts := StreamTable(AllStreams(outcome.modules), FilelistOf(sack));
    ShadowedNotInStreamTable(AllStreams(outcome.modules), sack, i, j);
    PartitionUnfold(outcome, sack);
    PutUnclaimed(cts, sack, sack[i]);
  }

  /** A shadowed package's location, held by no other package, is in no stream bucket. */
  lemma ShadowedNotInStreamTable(ss: seq<Stream>, sack: seq<Package>, i: int, j: int)
    requires 0 <= i < j < |sack| && Nevra(sack[i]) == Nevra(sack[j])
    requires forall m :: 0 <= m < |sack| && m != i ==> sack[m].location != sack[i].location
    ensures sack[i].location !in ModularSet(StreamTable(ss, FilelistOf(sack)))
  {
    var fl := FilelistOf(sack);
    var cts := StreamTable(ss, fl);
    var loc := sack[i].location;
    forall k, p | k in cts.entries && p in Paths(cts.entries[k]) ensures p != loc {
      StreamTableFrom(ss, fl, k);
      var n :| LastStream(ss, n, k) && cts.entries[k] == Listed(Lookup(ss[n].artifacts, fl));
      LookupMembers(ss[n].artifacts, fl, p);
      var a :| a in ss[n].artifacts && a in fl && fl[a] == p;
      FilelistFromSack(sack, a);
      var m :| LastWithKey(sack, m, a) && fl[a] == sack[m].location;
      assert m != i;
    }
  }

  /** A package of the sack whose location is in no stream bucket lands in "non_modular". */
  lemma PutUnclaimed(cts: Dict<Bucket>, sack: seq<Package>, q: Package)
    requires cts.Valid() && q in sack && q.location !in ModularSet(cts)
    ensures q.location in NonModularMembers(Put(cts, NonModularKey, Pooled(NonModularSet(sack, ModularSet(cts)))))
  {
    assert q.location in NonModularSet(sack, ModularSet(cts));
  }

}

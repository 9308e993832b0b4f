/**
 The repository's package index (the "sack") and the file list built from it
 by `_get_filelist`: a dictionary from each package's
 `name-epoch:version-release.arch` key to its file location.
 */
module Packages {

  /** One package of the sack; `location` is relative to the repository root. */
  datatype Package = Package(
    name: string,
    epoch: nat,
    version: string,
    release: string,
    arch: string,
    location: string)

  /** The digit character for `d`. */
  function DigitChar(d: nat): (c: char)
    requires d < 10
    ensures c as int == '0' as int + d
  {
    "0123456789"[d]
  }

  /** The value of a digit character. */
  function DigitValue(c: char): (d: nat)
    requires '0' <= c <= '9'
    ensures d < 10
  {
    c as int - '0' as int
  }

  predicate AllDigits(s: string) {
    forall k :: 0 <= k < |s| ==> '0' <= s[k] <= '9'
  }

  /** The number a string of decimal digits spells, most significant digit first. */
  function DigitsValue(s: string): nat
    requires AllDigits(s)
  {
    if s == [] then 0
    else 10 * DigitsValue(s[..|s| - 1]) + DigitValue(s[|s| - 1])
  }

  /** The decimal rendering of a natural number, as `%s` formats an int. */
  function Decimal(n: nat): string {
    if n < 10 then [DigitChar(n)] else Decimal(n / 10) + [DigitChar(n % 10)]
  }

  /**
   The rendering is the standard decimal text of `n`: a nonempty string of
   digits that spells `n`, with no leading zero unless it is the single
   digit of zero.
   */
  lemma {:induction false} DecimalDigits(n: nat)
    ensures var s := Decimal(n);
      && s != []
      && AllDigits(s)
      && DigitsValue(s) == n
      && (|s| > 1 ==> s[0] != '0')
      && (n < 10 <==> |s| == 1)
  {
    var s := Decimal(n);
    if n >= 10 {
      var h := Decimal(n / 10);
      DecimalDigits(n / 10);
      assert s == h + [DigitChar(n % 10)];
      assert s[..|s| - 1] == h;
      assert s[0] == h[0];
      if |h| == 1 {
        assert h[0] == DigitChar(n / 10);
      }
    }
  }

  /** The key `"%s-%s:%s-%s.%s" % (name, epoch, version, release, arch)`. */
  function Nevra(p: Package): string {
    p.name + "-" + Decimal(p.epoch) + ":" + p.version + "-" + p.release + "." + p.arch
  }

  /**
   The dictionary `_get_filelist` fills: the packages are visited in sack
   order and each assigns its location under its key, so a later package
   overwrites an earlier one with the same key.
   */
  ghost function FilelistOf(sack: seq<Package>): map<string, string>
  {
    if sack == [] then map[]
    else
      var last := sack[|sack| - 1];
      FilelistOf(sack[..|sack| - 1])[Nevra(last) := last.location]
  }

  /** `_get_filelist`. */
  method GetFilelist(sack: seq<Package>) returns (pkgList: map<string, string>)
    ensures pkgList == FilelistOf(sack)
  {
    pkgList := map[];
    for i := 0 to |sack|
      invariant pkgList == FilelistOf(sack[..i])
    {
      assert sack[..i + 1][..i] == sack[..i];
      pkgList := pkgList[Nevra(sack[i]) := sack[i].location];
    }
    assert sack[..|sack|] == sack;
  }

  /** The file list's keys are exactly the keys of the sack's packages. */
  lemma {:induction false} FilelistKeys(sack: seq<Package>)
    ensures FilelistOf(sack).Keys == set p | p in sack :: Nevra(p)
  {
    if sack != [] {
      var init := sack[..|sack| - 1];
      FilelistKeys(init);
      assert sack == init + [sack[|sack| - 1]];
    }
  }

  /** `sack[i]` is the last package in the sack whose key is `k`. */
  ghost predicate LastWithKey(sack: seq<Package>, i: int, k: string) {
    && 0 <= i < |sack|
    && Nevra(sack[i]) == k
    && forall j :: i < j < |sack| ==> Nevra(sack[j]) != k
  }

  /**
   A package no later package shares its key with owns that key's entry:
   when keys collide, the last package in the sack wins.
   */
  lemma {:induction false} FilelistLastWins(sack: seq<Package>, i: int, k: string)
    requires LastWithKey(sack, i, k)
    ensures k in FilelistOf(sack) && FilelistOf(sack)[k] == sack[i].location
  {
    if i < |sack| - 1 {
      var init := sack[..|sack| - 1];
      assert init[i] == sack[i];
      FilelistLastWins(init, i, k);
    }
  }

  /**
   Every entry of the file list comes from a package of the sack: the last
   one in sack order with that key.
   */
  lemma {:induction false} FilelistFromSack(sack: seq<Package>, k: string)
    requires k in FilelistOf(sack)
    ensures exists i :: LastWithKey(sack, i, k) && FilelistOf(sack)[k] == sack[i].location
  {
    var last := sack[|sack| - 1];
    if Nevra(last) == k {
      assert LastWithKey(sack, |sack| - 1, k);
    } else {
      var init := sack[..|sack| - 1];
      assert FilelistOf(sack) == FilelistOf(init)[Nevra(last) := last.location];
      FilelistFromSack(init, k);
      var i :| LastWithKey(init, i, k) && FilelistOf(init)[k] == init[i].location;
      LastWithKeyExtend(sack, i, k);
    }
  }

  /** A last package with key `k` stays last when a package with another key is appended. */
  lemma LastWithKeyExtend(sack: seq<Package>, i: int, k: string)
    requires |sack| > 0 && LastWithKey(sack[..|sack| - 1], i, k) && Nevra(sack[|sack| - 1]) != k
    ensures LastWithKey(sack, i, k) && sack[i] == sack[..|sack| - 1][i]
  {
    var init := sack[..|sack| - 1];
    forall j | i < j < |sack| ensures Nevra(sack[j]) != k {
      if j < |sack| - 1 {
        assert sack[j] == init[j];
      }
    }
  }

}

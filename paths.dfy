/**
 The two POSIX path operations the splitter applies to package locations:
 joining two components (`os.path.join`) and splitting a path into its
 directory part and its last component (`os.path.split`).
 */
module PosixPath {

  predicate IsAbsolute(p: string) {
    |p| > 0 && p[0] == '/'
  }

  predicate EndsWithSep(p: string) {
    |p| > 0 && p[|p| - 1] == '/'
  }

  predicate HasNoSep(s: string) {
    forall k :: 0 <= k < |s| ==> s[k] != '/'
  }

  /**
   `os.path.join(a, b)`: an absolute `b` replaces `a`; otherwise `b` is
   appended, with a separator unless `a` is empty or already ends in one.
   */
  function Join(a: string, b: string): string {
    if IsAbsolute(b) then b
    else if a == [] || EndsWithSep(a) then a + b
    else a + "/" + b
  }

  /** The index just after the last separator of `p` (0 when there is none). */
  function TailStart(p: string): (i: nat)
    ensures i <= |p|
    ensures i == 0 || p[i - 1] == '/'
    ensures HasNoSep(p[i..])
  {
    if p == [] then 0
    else if p[|p| - 1] == '/' then |p|
    else TailStart(p[..|p| - 1])
  }

  /** `s` with every trailing separator removed (`s.rstrip('/')`). */
  function StripTrailingSeps(s: string): (r: string)
    ensures |r| <= |s| && r == s[..|r|]
    ensures !EndsWithSep(r)
    ensures forall k :: |r| <= k < |s| ==> s[k] == '/'
  {
    if EndsWithSep(s) then StripTrailingSeps(s[..|s| - 1]) else s
  }

  /**
   `os.path.split(p)`: the tail is everything after the last separator; the
   head is everything up to it, with trailing separators stripped unless the
   head consists of separators only.
   */
  function Split(p: string): (string, string)
  {
    var i := TailStart(p);
    var head := p[..i];
    var tail := p[i..];
    if head != [] && !(forall k :: 0 <= k < |head| ==> head[k] == '/')
    then (StripTrailingSeps(head), tail)
    else (head, tail)
  }

  /**
   The file name `os.path.split(p)[1]`: the longest suffix of `p` that holds
   no separator.
   */
  function Basename(p: string): string {
    Split(p).1
  }

  /**
   The joined path ends with `b`; unless `b` is absolute it starts with `a`,
   and a separator is put between them when `a` is nonempty and does not end
   in one.
   */
  lemma JoinShape(a: string, b: string)
    ensures var r := Join(a, b);
      && |b| <= |r| && r[|r| - |b|..] == b
      && (!IsAbsolute(b) ==> |a| <= |r| && r[..|a|] == a)
      && (!IsAbsolute(b) && a != [] && !EndsWithSep(a) ==> |r| == |a| + 1 + |b| && r[|a|] == '/')
  {
  }

  /**
   The file name is the longest suffix of `p` that holds no separator: it is
   separator-free and either is all of `p` or follows a separator.
   */
  lemma BasenameShape(p: string)
    ensures var r := Basename(p);
      && HasNoSep(r)
      && |r| <= |p| && p[|p| - |r|..] == r
      && (|r| == |p| || p[|p| - |r| - 1] == '/')
  {
  }

  /** A separator at `n - 1` followed only by non-separators fixes the tail's start. */
  lemma {:induction false} TailStartAt(p: string, n: nat)
    requires 1 <= n <= |p| && p[n - 1] == '/' && HasNoSep(p[n..])
    ensures TailStart(p) == n
  {
    if n < |p| {
      // the last character lies in the separator-free part, so the tail starts earlier
      assert p[n..][|p| - 1 - n] == p[|p| - 1];
      var q := p[..|p| - 1];
      assert q[n..] == p[n..|p| - 1];
      TailStartAt(q, n);
    }
  }

  /**
   Splitting the join of a directory and a separator-free name gives back
   the directory and the name: the joined path is an entry directly inside
   the directory.
   */
  lemma SplitJoin(dir: string, name: string)
    requires HasNoSep(name)
    requires dir != [] && (!EndsWithSep(dir) || dir == "/")
    ensures Split(Join(dir, name)) == (dir, name)
  {
    var p := Join(dir, name);
    if dir == "/" {
      assert p == dir + name;
      assert p[1..] == name;
      TailStartAt(p, 1);
      assert p[..1] == dir;
    } else {
      assert p == dir + "/" + name;
      var n := |dir| + 1;
      assert p[n..] == name;
      TailStartAt(p, n);
      assert p[..n] == dir + "/";
      assert StripTrailingSeps(dir + "/") == dir by {
        assert (dir + "/")[..|dir|] == dir;
      }
      assert (dir + "/")[|dir| - 1] != '/';
    }
  }
}

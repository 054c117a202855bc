/**
 * Path strings: Ruby's `File.join`, the directory entries a path string
 * names once the operating system has collapsed its separators, and the
 * clone directory `clone_path` of a repository.
 */
module Paths {

  predicate NoSlash(s: string) {
    forall i :: 0 <= i < |s| ==> s[i] != '/'
  }

  /**
   * A name the operating system takes as one entry of its own: non-empty,
   * without `/`, and neither `.` nor `..`.
   */
  predicate PlainName(n: string) {
    n != [] && NoSlash(n) && n != "." && n != ".."
  }

  /** The index of the first `/` at or after `i`, or `|s|` when there is none. */
  function NameEnd(s: string, i: nat): (j: nat)
    requires i <= |s|
    ensures i <= j <= |s|
    ensures forall m :: i <= m < j ==> s[m] != '/'
    ensures j == |s| || s[j] == '/'
    decreases |s| - i
  {
    if i == |s| || s[i] == '/' then i else NameEnd(s, i + 1)
  }

  /**
   * The entry names a path string walks through: runs of separators count as
   * one, and a leading or trailing separator adds no name. `.` and `..` are
   * kept as names (they are not resolved).
   */
  function Segments(s: string): (r: seq<string>)
    ensures forall n :: 0 <= n < |r| ==> r[n] != [] && NoSlash(r[n])
    decreases |s|
  {
    if s == [] then []
    else if s[0] == '/' then Segments(s[1..])
    else
      var j := NameEnd(s, 0);
      [s[..j]] + Segments(s[j..])
  }

  /** `s` without its trailing separators. */
  function ChompSeps(s: string): (r: string)
    ensures r <= s
    ensures r == [] || r[|r| - 1] != '/'
    ensures forall m :: |r| <= m < |s| ==> s[m] == '/'
    decreases |s|
  {
    if s != [] && s[|s| - 1] == '/' then ChompSeps(s[..|s| - 1]) else s
  }

  /**
   * Ruby's `File.join(a, b)`: when `b` starts with a separator, the
   * separators ending `a` are dropped; otherwise one separator is added
   * unless `a` already ends with one.
   */
  function Join(a: string, b: string): (r: string)
    ensures |b| <= |r| && r[|r| - |b|..] == b
    ensures Segments(r) == Segments(a) + Segments(b)
  {
    if b != [] && b[0] == '/' then
      JoinAbsolute(a, b);
      ChompSeps(a) + b
    else if a != [] && a[|a| - 1] == '/' then
      JoinAfterSlash(a, b);
      a + b
    else
      SegmentsSlash(a, b);
      a + "/" + b
  }

  /** `clone_path`: `File.join(tmpdir, owner, project)`, below `tmpdir` under the owner's name and then the project's. */
  function ClonePathOf(tmpdir: string, owner: string, project: string): (r: string)
    ensures Segments(r) == Segments(tmpdir) + Segments(owner) + Segments(project)
  {
    Join(Join(tmpdir, owner), project)
  }

  // ---------------------------------------------------------------------------

  /** A separator splits a path string into the names before it and the names after it. */
  lemma {:induction false} SegmentsSlash(a: string, b: string)
    ensures Segments(a + "/" + b) == Segments(a) + Segments(b)
    decreases |a|
  {
    var s := a + "/" + b;
    if a == [] {
      assert s[1..] == b;
    } else if a[0] == '/' {
      assert s[1..] == a[1..] + "/" + b;
      SegmentsSlash(a[1..], b);
    } else {
      var n := NameEnd(a, 0);
      assert forall m :: 0 <= m < n ==> s[m] == a[m];
      assert s[n] == '/' by {
        if n < |a| { assert s[n] == a[n]; } else { assert s[|a|] == '/'; }
      }
      NameEndAt(s, 0, n);
      assert s[..n] == a[..n];
      assert s[n..] == a[n..] + "/" + b;
      SegmentsSlash(a[n..], b);
    }
  }

  /** The first separator at or after `i` is the one at `e`. */
  lemma NameEndAt(s: string, i: nat, e: nat)
    requires i <= e <= |s|
    requires forall m :: i <= m < e ==> s[m] != '/'
    requires e == |s| || s[e] == '/'
    ensures NameEnd(s, i) == e
    decreases e - i
  {
    if i < e {
      NameEndAt(s, i + 1, e);
    }
  }

  /** A name without separators is one entry; the empty string is none. */
  lemma SegmentsOfName(o: string)
    requires NoSlash(o)
    ensures Segments(o) == if o == [] then [] else [o]
  {
    if o != [] {
      assert NameEnd(o, 0) == |o|;
      assert o[..|o|] == o;
      assert o[|o|..] == [];
    }
  }

  /** Trailing separators name nothing. */
  lemma {:induction false} SegmentsChompSeps(s: string)
    ensures Segments(ChompSeps(s)) == Segments(s)
    decreases |s|
  {
    if s != [] && s[|s| - 1] == '/' {
      var t := s[..|s| - 1];
      assert ChompSeps(s) == ChompSeps(t);
      assert s == t + "/" + [];
      SegmentsSlash(t, []);
      assert Segments(s) == Segments(t) + [];
      SegmentsChompSeps(t);
    }
  }

  /** A leading separator of the second argument replaces the trailing ones of the first. */
  lemma JoinAbsolute(a: string, b: string)
    requires b != [] && b[0] == '/'
    ensures Segments(ChompSeps(a) + b) == Segments(a) + Segments(b)
  {
    var c := ChompSeps(a);
    assert c + b == c + "/" + b[1..];
    SegmentsSlash(c, b[1..]);
    SegmentsChompSeps(a);
  }

  /** A first argument that already ends with a separator is joined as it is. */
  lemma JoinAfterSlash(a: string, b: string)
    requires a != [] && a[|a| - 1] == '/'
    ensures Segments(a + b) == Segments(a) + Segments(b)
  {
    var t := a[..|a| - 1];
    assert a + b == t + "/" + b;
    assert a == t + "/" + [];
    SegmentsSlash(t, b);
    SegmentsSlash(t, []);
  }

  /**
   * `clone_path` is injective in non-empty, separator-free names: two
   * repositories share a clone path only if they have the same owner and project.
   */
  lemma ClonePathInjective(tmpdir: string, o1: string, p1: string, o2: string, p2: string)
    requires o1 != [] && p1 != [] && o2 != [] && p2 != []
    requires NoSlash(o1) && NoSlash(p1) && NoSlash(o2) && NoSlash(p2)
    ensures ClonePathOf(tmpdir, o1, p1) == ClonePathOf(tmpdir, o2, p2) <==> o1 == o2 && p1 == p2
  {
    if ClonePathOf(tmpdir, o1, p1) == ClonePathOf(tmpdir, o2, p2) {
      PlainClonePath(tmpdir, o1, p1);
      PlainClonePath(tmpdir, o2, p2);
      var base := Segments(tmpdir);
      assert (base + [o1, p1])[|base|] == o1 && (base + [o1, p1])[|base| + 1] == p1;
    }
  }

  /** The clone directory of non-empty names without `/` is one entry for the owner and one for the project below `tmpdir`. */
  lemma PlainClonePath(tmpdir: string, owner: string, project: string)
    requires owner != [] && project != [] && NoSlash(owner) && NoSlash(project)
    ensures Segments(ClonePathOf(tmpdir, owner, project)) == Segments(tmpdir) + [owner, project]
  {
    SegmentsOfName(owner);
    SegmentsOfName(project);
  }
}

/** Path names as plain strings (diffuzzer/src/abstract_fs/pathname.rs). */
module Pathname {

  type Name = string

  /** A file name as it may appear between slashes. */
  predicate Proper(n: Name) {
    n != "" && '/' !in n
  }

  predicate EndsWithSlash(p: string) {
    p != "" && p[|p| - 1] == '/'
  }

  predicate IsRoot(p: string) {
    p == "/"
  }

  predicate IsValid(p: string) {
    (!EndsWithSlash(p) || IsRoot(p)) && p != "" && p[0] == '/'
  }

  /** Position of the last slash. */
  function LastSlash(p: string): (i: nat)
    requires '/' in p
    ensures i < |p| && p[i] == '/' && '/' !in p[i + 1..]
  {
    if p[|p| - 1] == '/' then
      |p| - 1
    else
      var i := LastSlash(p[..|p| - 1]);
      assert p[i + 1..] == p[..|p| - 1][i + 1..] + [p[|p| - 1]];
      i
  }

  /** Parent directory and file name. The source panics on a string without any slash. */
  function Split(p: string): (r: (string, Name))
    requires '/' in p
    ensures '/' !in r.1
    ensures r.1 == "" <==> EndsWithSlash(p)
  {
    var i := LastSlash(p);
    (if i == 0 then "/" else p[..i], p[i + 1..])
  }

  /** The pieces between slashes, empty ones included. */
  function Pieces(p: string): (r: seq<string>)
    ensures |r| >= 1
  {
    if p == "" then
      [""]
    else if p[0] == '/' then
      [""] + Pieces(p[1..])
    else
      var r := Pieces(p[1..]);
      [[p[0]] + r[0]] + r[1..]
  }

  function NonEmpty(ps: seq<string>): seq<string> {
    if ps == [] then []
    else (if ps[0] == "" then [] else [ps[0]]) + NonEmpty(ps[1..])
  }

  function Segments(p: string): seq<Name> {
    NonEmpty(Pieces(p))
  }

  function Join(p: string, n: Name): string {
    if IsRoot(p) then "/" + n else p + "/" + n
  }

  /** The canonical path with the given segments. */
  function Show(segs: seq<Name>): string {
    if segs == [] then "/" else Join(Show(segs[..|segs| - 1]), segs[|segs| - 1])
  }

  predicate AllProper(segs: seq<Name>) {
    forall n :: n in segs ==> Proper(n)
  }

  /** A path that is valid and has no two adjacent slashes. */
  predicate Canonical(p: string) {
    IsValid(p) && forall i :: 0 <= i < |p| - 1 ==> !(p[i] == '/' && p[i + 1] == '/')
  }

  // ----- pieces and segments

  lemma {:induction false} PiecesConcat(a: string, b: string)
    ensures Pieces(a + "/" + b) == Pieces(a) + Pieces(b)
  {
    var c := a + "/" + b;
    if a == "" {
      assert c[1..] == b;
    } else {
      assert c[1..] == a[1..] + "/" + b;
      PiecesConcat(a[1..], b);
    }
  }

  lemma {:induction false} NonEmptyConcat(a: seq<string>, b: seq<string>)
    ensures NonEmpty(a + b) == NonEmpty(a) + NonEmpty(b)
  {
    if a == [] {
      assert a + b == b;
    } else {
      assert (a + b)[1..] == a[1..] + b;
      NonEmptyConcat(a[1..], b);
    }
  }

  lemma SegmentsConcat(a: string, b: string)
    ensures Segments(a + "/" + b) == Segments(a) + Segments(b)
  {
    PiecesConcat(a, b);
    NonEmptyConcat(Pieces(a), Pieces(b));
  }

  lemma {:induction false} PiecesOfName(n: string)
    requires '/' !in n
    ensures Pieces(n) == [n]
  {
    if n != "" {
      assert n[0] != '/';
      PiecesOfName(n[1..]);
      assert [n[0]] + n[1..] == n;
    }
  }

  lemma SegmentsOfName(n: Name)
    requires Proper(n)
    ensures Segments(n) == [n]
  {
    PiecesOfName(n);
    assert NonEmpty([n]) == [n] + NonEmpty([]);
  }

  lemma SegmentsOfRoot()
    ensures Segments("/") == []
  {
    assert "/"[1..] == "";
    assert Pieces("/") == ["", ""];
    assert ["", ""][1..] == [""];
  }

  lemma {:induction false} PiecesSlashFree(p: string)
    ensures forall q :: q in Pieces(p) ==> '/' !in q
  {
    if p != "" {
      PiecesSlashFree(p[1..]);
    }
  }

  lemma {:induction false} NonEmptyMembers(ps: seq<string>)
    ensures forall q :: q in NonEmpty(ps) <==> q in ps && q != ""
  {
    if ps != [] {
      NonEmptyMembers(ps[1..]);
      assert ps == [ps[0]] + ps[1..];
    }
  }

  /** Every segment is a proper name. */
  lemma SegmentsProper(p: string)
    ensures AllProper(Segments(p))
  {
    PiecesSlashFree(p);
    NonEmptyMembers(Pieces(p));
  }

  // ----- splitting and joining

  /** What a split says about segments: the parent's segments, then the name unless it is empty. */
  lemma SplitSegments(p: string)
    requires '/' in p
    ensures Segments(p) == Segments(Split(p).0) + if Split(p).1 == "" then [] else [Split(p).1]
  {
    var i := LastSlash(p);
    var name := p[i + 1..];
    assert p == p[..i] + "/" + name;
    SegmentsConcat(p[..i], name);
    PiecesOfName(name);
    assert NonEmpty([""]) == [] by { assert [""][1..] == []; }
    if name != "" { SegmentsOfName(name); }
    if i == 0 {
      SegmentsOfRoot();
      assert p[..0] == "";
      assert Segments("") == NonEmpty([""]) == [];
    }
  }

  lemma {:induction false} LastSlashAt(p: string, i: nat)
    requires i < |p| && p[i] == '/' && '/' !in p[i + 1..]
    ensures LastSlash(p) == i
  {
    var k := |p| - 1;
    if i < k {
      assert p[k] == p[i + 1..][k - i - 1];
      assert p[..k][i + 1..] == p[i + 1..][..k - i - 1];
      LastSlashAt(p[..k], i);
    }
  }

  /** Joining a proper name to a valid path is undone by splitting, and appends one segment. */
  lemma JoinSplit(p: string, n: Name)
    requires IsValid(p) && Proper(n)
    ensures IsValid(Join(p, n)) && !IsRoot(Join(p, n)) && '/' in Join(p, n)
    ensures Split(Join(p, n)) == (p, n)
    ensures Segments(Join(p, n)) == Segments(p) + [n]
  {
    var j := Join(p, n);
    var k := if IsRoot(p) then 0 else |p|;
    assert j[k] == '/' && j[k + 1..] == n;
    assert j[0] == '/';
    LastSlashAt(j, k);
    assert j[..k] == if IsRoot(p) then "" else p;
    assert j[|j| - 1] == n[|n| - 1];
    SplitSegments(j);
  }

  /** Splitting a path whose name is not empty is undone by joining, also for paths with doubled slashes. */
  lemma SplitJoin(p: string)
    requires IsValid(p) && !IsRoot(p)
    ensures Proper(Split(p).1)
    ensures Join(Split(p).0, Split(p).1) == p || p == "/" + Join(Split(p).0, Split(p).1)
    ensures Canonical(p) ==> Join(Split(p).0, Split(p).1) == p && Canonical(Split(p).0)
  {
    var i := LastSlash(p);
    var name := p[i + 1..];
    assert p == p[..i] + "/" + name;
    if i == 0 {
      assert p == "/" + name;
    } else {
      if p[..i] == "/" { assert p == "/" + ("/" + name); }
      if Canonical(p) { ParentCanonical(p, i); }
    }
  }

  lemma ParentCanonical(p: string, i: nat)
    requires Canonical(p) && 0 < i < |p| && p[i] == '/'
    ensures Canonical(p[..i]) && p[..i] != "/"
  {
    var q := p[..i];
    assert forall k :: 0 <= k < i ==> q[k] == p[k];
    var k := i - 1;
    assert p[k + 1] == '/';
  }

  /** Slashes doubled just before the last name, and not at the very start. */
  predicate DoubledBeforeName(p: string) {
    '/' in p && LastSlash(p) > 1 && p[LastSlash(p) - 1] == '/'
  }

  /** The one shape of valid path whose split parent is not valid; canonical paths are never of it. */
  lemma SplitParentValid(p: string)
    requires IsValid(p) && !IsRoot(p)
    ensures IsValid(Split(p).0) <==> !DoubledBeforeName(p)
    ensures Canonical(p) ==> !DoubledBeforeName(p)
  {
    var k := LastSlash(p);
    if k > 0 {
      assert p[..k][k - 1] == p[k - 1];
      assert p[..k][0] == '/';
    }
  }

  // ----- canonical paths

  /** Printing proper segments gives a canonical path with exactly those segments. */
  lemma {:induction false} ShowSegments(segs: seq<Name>)
    requires AllProper(segs)
    ensures Canonical(Show(segs))
    ensures Segments(Show(segs)) == segs
  {
    if segs == [] {
      SegmentsOfRoot();
    } else {
      var init, n := segs[..|segs| - 1], segs[|segs| - 1];
      assert AllProper(init) && Proper(n) by { assert forall m :: m in init ==> m in segs; }
      ShowSegments(init);
      assert Segments(Join(Show(init), n)) == init + [n] by { JoinSplit(Show(init), n); }
      assert init + [n] == segs;
      JoinCanonical(Show(init), n);
    }
  }

  lemma JoinCanonical(p: string, n: Name)
    requires Canonical(p) && Proper(n)
    ensures Canonical(Join(p, n))
  {
    JoinSplit(p, n);
    var j := Join(p, n);
    var k := if IsRoot(p) then 0 else |p|;
    forall i | 0 <= i < |j| - 1
      ensures !(j[i] == '/' && j[i + 1] == '/')
    {
      if i > k {
        assert j[i] == n[i - k - 1];
      } else if i == k {
        assert j[i + 1] == n[0];
      } else {
        assert j[i] == p[i];
      }
    }
  }

  /** A path is canonical exactly when printing its segments gives the path back. */
  lemma {:induction false} CanonicalRoundTrip(p: string)
    ensures Canonical(p) <==> Show(Segments(p)) == p
    decreases |p|
  {
    SegmentsProper(p);
    ShowSegments(Segments(p));
    if Canonical(p) {
      if IsRoot(p) {
        SegmentsOfRoot();
      } else {
        SplitJoin(p);
        SplitSegments(p);
        var (q, n) := Split(p);
        CanonicalRoundTrip(q);
        assert Segments(p)[..|Segments(p)| - 1] == Segments(q);
      }
    }
  }

  /** Printing is injective on proper segments. */
  lemma ShowInjective(a: seq<Name>, b: seq<Name>)
    requires AllProper(a) && AllProper(b) && Show(a) == Show(b)
    ensures a == b
  {
    ShowSegments(a);
    ShowSegments(b);
  }
}

/**
 What the comparison of two listings sees of their entries (dash/src/lib.rs, add_to_hasher and
 calc_fileinfo_hash), for a hash function that keeps different inputs apart.
 */
module Hashing {
  import opened Listings

  // ----- one entry

  /** Whether the number of links is looked at, which is a choice of its own for directories and for other files. */
  predicate LinksSeen(isDir: bool, o: HasherOptions) {
    if isDir then o.dirNlink else o.fileNlink
  }

  /** The fields looked at agree. */
  predicate Alike(f: FileInfo, g: FileInfo, o: HasherOptions) {
    && f.relPath == g.relPath && f.gid == g.gid && f.uid == g.uid
    && (o.size ==> f.size == g.size)
    && (o.mode ==> f.mode == g.mode)
    && (LinksSeen(f.isDir, o) ==> f.nlink == g.nlink)
  }

  /** Of two entries of one kind exactly these fields are looked at. */
  lemma FedExactly(f: FileInfo, g: FileInfo, o: HasherOptions)
    requires f.isDir == g.isDir
    ensures Fed(f, o) == Fed(g, o) <==> Alike(f, g, o)
  {
    FedFields(f, o);
    FedFields(g, o);
  }

  /** How many links and sizes come before a field. */
  function FieldAt(b: bool): nat {
    if b then 1 else 0
  }

  lemma FedFields(f: FileInfo, o: HasherOptions)
    ensures var fed := Fed(f, o);
            var size := FieldAt(o.size);
            var links := FieldAt(LinksSeen(f.isDir, o));
            && |fed| == 3 + size + links + FieldAt(o.mode)
            && fed[0] == Bytes(f.relPath) && fed[1] == U32(f.gid) && fed[2] == U32(f.uid)
            && (o.size ==> fed[3] == U64(f.size))
            && (LinksSeen(f.isDir, o) ==> fed[3 + size] == U64(f.nlink))
            && (o.mode ==> fed[3 + size + links] == U32(f.mode))
  {
  }

  // ----- many entries

  /** The entries whose path begins with the given one, as text. */
  function Beginning(list: seq<FileInfo>, path: string): seq<FileInfo> {
    if list == [] then []
    else (if path <= list[0].relPath then [list[0]] else []) + Beginning(list[1..], path)
  }

  lemma {:induction false} BeginningHas(list: seq<FileInfo>, path: string)
    ensures forall f :: f in Beginning(list, path) <==> f in list && path <= f.relPath
  {
    if list != [] {
      BeginningHas(list[1..], path);
      assert list == [list[0]] + list[1..];
    }
  }

  function FedAll(list: seq<FileInfo>, o: HasherOptions): seq<Chunk> {
    if list == [] then [] else Fed(list[0], o) + FedAll(list[1..], o)
  }

  lemma {:induction false} FedAllConcat(a: seq<FileInfo>, b: seq<FileInfo>, o: HasherOptions)
    ensures FedAll(a + b, o) == FedAll(a, o) + FedAll(b, o)
  {
    if a == [] {
      assert a + b == b;
    } else {
      assert (a + b)[1..] == a[1..] + b;
      FedAllConcat(a[1..], b, o);
    }
  }

  lemma {:induction false} BeginningSnoc(init: seq<FileInfo>, last: FileInfo, path: string)
    ensures Beginning(init + [last], path) == Beginning(init, path) + if path <= last.relPath then [last] else []
  {
    if init == [] {
      assert init + [last] == [last] && [last][1..] == [];
    } else {
      assert (init + [last])[1..] == init[1..] + [last];
      BeginningSnoc(init[1..], last, path);
    }
  }

  /** The hasher is fed all entries whose path begins with the given one, in order, and no other. */
  lemma {:induction false} FedBelowExactly(list: seq<FileInfo>, path: string, o: HasherOptions)
    ensures FedBelow(list, path, o) == FedAll(Beginning(list, path), o)
  {
    if list != [] {
      var init, last := list[..|list| - 1], list[|list| - 1];
      assert list == init + [last];
      FedBelowExactly(init, path, o);
      BeginningSnoc(init, last, path);
      FedAllConcat(Beginning(init, path), if path <= last.relPath then [last] else [], o);
      assert [last][1..] == [];
      assert FedAll([last], o) == Fed(last, o) + FedAll([], o) == Fed(last, o);
    }
  }

  /** Entry by entry alike. */
  predicate AllAlike(a: seq<FileInfo>, b: seq<FileInfo>, o: HasherOptions) {
    |a| == |b| && forall i :: 0 <= i < |a| ==> Alike(a[i], b[i], o)
  }

  /** What is fed begins anew with every entry, and nowhere else. */
  lemma FedStarts(f: FileInfo, o: HasherOptions)
    ensures Fed(f, o) != [] && Fed(f, o)[0].Bytes? && forall i :: 1 <= i < |Fed(f, o)| ==> !Fed(f, o)[i].Bytes?
  {
    FedFields(f, o);
  }

  predicate AtStart(c: seq<Chunk>) {
    c == [] || c[0].Bytes?
  }

  lemma NotLonger(a: seq<Chunk>, x: seq<Chunk>, b: seq<Chunk>, y: seq<Chunk>)
    requires a + x == b + y && AtStart(x) && a != []
    requires forall i :: 1 <= i < |b| ==> !b[i].Bytes?
    ensures |b| <= |a|
  {
    assert forall i :: 1 <= i < |b| ==> !(b + y)[i].Bytes?;
    assert x != [] ==> (a + x)[|a|] == x[0];
    assert |a + x| == |a| + |x| && |b + y| == |b| + |y|;
  }

  /** So it can be taken apart again. */
  lemma TakenApart(f: FileInfo, x: seq<Chunk>, g: FileInfo, y: seq<Chunk>, o: HasherOptions)
    requires Fed(f, o) + x == Fed(g, o) + y && AtStart(x) && AtStart(y)
    ensures Fed(f, o) == Fed(g, o) && x == y
  {
    var a, b := Fed(f, o), Fed(g, o);
    FedStarts(f, o);
    FedStarts(g, o);
    NotLonger(a, x, b, y);
    NotLonger(b, y, a, x);
    assert a == (a + x)[..|a|] && b == (b + y)[..|b|];
    assert x == (a + x)[|a|..] && y == (b + y)[|b|..];
  }

  lemma FedAllAtStart(list: seq<FileInfo>, o: HasherOptions)
    ensures AtStart(FedAll(list, o))
    ensures list != [] ==> FedAll(list, o) != []
  {
    if list != [] {
      FedStarts(list[0], o);
    }
  }

  /** Of the same paths the kinds agree. */
  predicate SameKinds(a: seq<FileInfo>, b: seq<FileInfo>) {
    forall f, g :: f in a && g in b && f.relPath == g.relPath ==> f.isDir == g.isDir
  }

  lemma {:induction false} FedAllExactly(a: seq<FileInfo>, b: seq<FileInfo>, o: HasherOptions)
    requires SameKinds(a, b)
    ensures FedAll(a, o) == FedAll(b, o) <==> AllAlike(a, b, o)
    decreases |a|
  {
    FedAllAtStart(a, o);
    FedAllAtStart(b, o);
    if a != [] && b != [] {
      var x, y := FedAll(a[1..], o), FedAll(b[1..], o);
      FedAllAtStart(a[1..], o);
      FedAllAtStart(b[1..], o);
      FedAllExactly(a[1..], b[1..], o);
      if FedAll(a, o) == FedAll(b, o) {
        TakenApart(a[0], x, b[0], y, o);
        FedFields(a[0], o);
        FedFields(b[0], o);
        assert a[0] in a && b[0] in b;
        FedExactly(a[0], b[0], o);
        forall i | 0 <= i < |a|
          ensures Alike(a[i], b[i], o)
        {
          if i > 0 { assert Alike(a[1..][i - 1], b[1..][i - 1], o); }
        }
      }
      if AllAlike(a, b, o) {
        assert a[0] in a && b[0] in b && Alike(a[0], b[0], o);
        FedExactly(a[0], b[0], o);
        forall i | 0 <= i < |a[1..]|
          ensures Alike(a[1..][i], b[1..][i], o)
        {
          assert Alike(a[i + 1], b[i + 1], o);
        }
      }
    }
  }

  // ----- the comparison

  /** Different inputs have different hashes. */
  ghost predicate KeepsApart(s: Sides) {
    forall a, b :: s.Digest(a) == s.Digest(b) ==> a == b
  }

  /** The hashes for a path agree if and only if the entries that begin with it do, one by one, in the fields looked at. */
  lemma HashSees(s: Sides, path: string)
    requires KeepsApart(s) && SameKinds(s.fst, s.snd)
    ensures SameHash(s, path) <==> AllAlike(Beginning(s.fst, path), Beginning(s.snd, path), s.options)
  {
    FedBelowExactly(s.fst, path, s.options);
    FedBelowExactly(s.snd, path, s.options);
    BeginningHas(s.fst, path);
    BeginningHas(s.snd, path);
    FedAllExactly(Beginning(s.fst, path), Beginning(s.snd, path), s.options);
  }

  /** What is reported of a path that both listings have: exactly that one of the entries beginning with it differs. */
  lemma DifferenceSees(s: Sides, a: nat, b: nat)
    requires InOrder(s) && KeepsApart(s) && SameKinds(s.fst, s.snd)
    requires a < |s.fst| && b < |s.snd| && s.fst[a].relPath == s.snd[b].relPath
    requires !s.SkipsFst(s.fst[a].relPath) && !s.SkipsSnd(s.fst[a].relPath)
    ensures var p := s.fst[a].relPath;
            FileIsDifferent(s.fst[a], s.snd[b]) in Difference(s) <==>
              !AllAlike(Beginning(s.fst, p), Beginning(s.snd, p), s.options)
  {
    var f, g := s.fst[a], s.snd[b];
    HashSees(s, f.relPath);
    DifferenceExact(s);
    assert FileIsDifferent(f, g) in Difference(s) <==> Expected(s, FileIsDifferent(f, g), 0, 0);
    if !SameHash(s, f.relPath) {
      assert Different(s, f, g, 0, 0);
    }
  }

  /** No other path begins with the entry's. */
  predicate Alone(list: seq<FileInfo>, a: nat)
    requires a < |list|
  {
    forall k :: 0 <= k < |list| && list[a].relPath <= list[k].relPath ==> k == a
  }

  lemma {:induction false} AloneBeginning(list: seq<FileInfo>, a: nat)
    requires a < |list| && Alone(list, a)
    ensures Beginning(list, list[a].relPath) == [list[a]]
    decreases |list|
  {
    var p := list[a].relPath;
    if a == 0 {
      NoneBeginning(list[1..], p);
    } else {
      assert list[1..][a - 1] == list[a];
      forall k | 0 <= k < |list[1..]| && p <= list[1..][k].relPath
        ensures k == a - 1
      {
        assert list[1..][k] == list[k + 1];
      }
      AloneBeginning(list[1..], a - 1);
    }
  }

  lemma {:induction false} NoneBeginning(list: seq<FileInfo>, p: string)
    requires forall k :: 0 <= k < |list| ==> !(p <= list[k].relPath)
    ensures Beginning(list, p) == []
  {
    if list != [] {
      NoneBeginning(list[1..], p);
    }
  }

  /** Of a path that no other begins with, such as a file's: reported if and only if a field looked at differs. */
  lemma FileDifference(s: Sides, a: nat, b: nat)
    requires InOrder(s) && KeepsApart(s) && SameKinds(s.fst, s.snd)
    requires a < |s.fst| && b < |s.snd| && s.fst[a].relPath == s.snd[b].relPath
    requires !s.SkipsFst(s.fst[a].relPath) && !s.SkipsSnd(s.fst[a].relPath)
    requires Alone(s.fst, a) && Alone(s.snd, b)
    ensures FileIsDifferent(s.fst[a], s.snd[b]) in Difference(s) <==> !Alike(s.fst[a], s.snd[b], s.options)
  {
    DifferenceSees(s, a, b);
    AloneBeginning(s.fst, a);
    AloneBeginning(s.snd, b);
    assert [s.fst[a]][0] == s.fst[a];
  }
}

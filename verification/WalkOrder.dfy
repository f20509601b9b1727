/**
 The order in which a directory tree is listed (dash/src/lib.rs, calc_dir_hash), against the order in which
 listings are compared.
 */
module WalkOrder {
  import opened Pathname
  import opened Listings

  /** The entries of a directory: a first one with what is below it, and those after it. */
  datatype Entries = None | Entry(name: Name, below: Entries, after: Entries)

  function Names(e: Entries): seq<Name> {
    if e.None? then [] else [e.name] + Names(e.after)
  }

  /** Proper names, each directory sorted by them. */
  predicate SortedTree(e: Entries) {
    e.Entry? ==>
      && Proper(e.name) && SortedTree(e.below) && SortedTree(e.after)
      && forall m :: m in Names(e.after) ==> Less(e.name, m)
  }

  function Child(dir: string, n: Name): string {
    if dir == "" then n else dir + "/" + n
  }

  function Walk(dir: string, e: Entries): seq<string>
    decreases e
  {
    if e.None? then []
    else [Child(dir, e.name)] + Walk(Child(dir, e.name), e.below) + Walk(dir, e.after)
  }

  /** Paths relative to the root, which is listed first. */
  function Listing(e: Entries): seq<string> {
    [""] + Walk("", e)
  }

  predicate Increasing(paths: seq<string>) {
    forall i, j :: 0 <= i < j < |paths| ==> Less(paths[i], paths[j])
  }

  /** Where one name in a directory is the beginning of another and has entries below it, the other goes on above the slash. */
  predicate Separated(e: Entries) {
    e.Entry? ==>
      && Separated(e.below) && Separated(e.after)
      && ApartFromAll(e)
  }

  predicate Apart(x: Name, y: Name) {
    x <= y && |x| < |y| ==> y[|x|] > '/'
  }

  // ----- orders of paths

  lemma {:induction false} LessPrefix(p: string, a: string, b: string)
    ensures Less(p + a, p + b) <==> Less(a, b)
  {
    if p == "" {
      assert p + a == a && p + b == b;
    } else {
      assert (p + a)[1..] == p[1..] + a && (p + b)[1..] == p[1..] + b;
      LessPrefix(p[1..], a, b);
    }
  }

  /** The end of a path after one of its names. */
  predicate Ending(u: string) {
    u == "" || u[0] == '/'
  }

  lemma {:induction false} NamesDecide(x: string, u: string, y: string, v: string)
    requires Less(x, y) && '/' !in y && Ending(u)
    ensures Less(x + u, y + v) <==> u == "" || Apart(x, y)
  {
    if x == "" {
      assert x + u == u;
      assert y[0] != '/';
    } else {
      assert (x + u)[1..] == x[1..] + u && (y + v)[1..] == y[1..] + v;
      if x[0] == y[0] {
        NamesDecide(x[1..], u, y[1..], v);
        ApartTail(x, y);
      }
    }
  }

  lemma ApartTail(x: string, y: string)
    requires x != "" && y != "" && x[0] == y[0]
    ensures Apart(x, y) <==> Apart(x[1..], y[1..])
  {
    if x[1..] <= y[1..] {
      assert x == [x[0]] + x[1..] && y == [y[0]] + y[1..];
    }
  }

  lemma PathsDecide(dir: string, x: Name, u: string, y: Name, v: string)
    requires Less(x, y) && '/' !in y && Ending(u)
    ensures Less(Child(dir, x) + u, Child(dir, y) + v) <==> u == "" || Apart(x, y)
  {
    NamesDecide(x, u, y, v);
    if dir != "" {
      ChildRegroup(dir, x, u);
      ChildRegroup(dir, y, v);
      LessPrefix(dir + "/", x + u, y + v);
    }
  }

  lemma ChildRegroup(dir: string, n: Name, u: string)
    requires dir != ""
    ensures Child(dir, n) + u == (dir + "/") + (n + u)
  {
  }

  lemma IncreasingConcat(a: seq<string>, b: seq<string>)
    ensures Increasing(a + b) <==> Increasing(a) && Increasing(b) && forall x, y :: x in a && y in b ==> Less(x, y)
  {
    if Increasing(a + b) {
      forall i, j | 0 <= i < j < |b|
        ensures Less(b[i], b[j])
      {
        assert (a + b)[|a| + i] == b[i] && (a + b)[|a| + j] == b[j];
      }
      forall i, j | 0 <= i < j < |a|
        ensures Less(a[i], a[j])
      {
        assert (a + b)[i] == a[i] && (a + b)[j] == a[j];
      }
      forall x, y | x in a && y in b
        ensures Less(x, y)
      {
        var i :| 0 <= i < |a| && a[i] == x;
        var j :| 0 <= j < |b| && b[j] == y;
        assert (a + b)[i] == x && (a + b)[|a| + j] == y;
      }
    } else {
      var i, j :| 0 <= i < j < |a + b| && !Less((a + b)[i], (a + b)[j]);
      assert (a + b)[i] == if i < |a| then a[i] else b[i - |a|];
      assert (a + b)[j] == if j < |a| then a[j] else b[j - |a|];
      if i < |a| <= j { assert a[i] in a && b[j - |a|] in b; }
    }
  }

  // ----- what a walk lists

  /** A path that begins with a child of a directory. */
  predicate Under(path: string, dir: string, n: Name) {
    Child(dir, n) <= path && Ending(path[|Child(dir, n)|..])
  }

  lemma {:induction false} WalkUnder(dir: string, e: Entries, path: string)
    requires path in Walk(dir, e) && SortedTree(e)
    ensures exists n :: n in Names(e) && Under(path, dir, n)
    decreases e, 0
  {
    var here := Child(dir, e.name);
    if path in Walk(here, e.below) {
      WalkBelow(here, e.below, path);
      assert e.name in Names(e) && Under(path, dir, e.name);
    } else if path in Walk(dir, e.after) {
      WalkUnder(dir, e.after, path);
      var n :| n in Names(e.after) && Under(path, dir, n);
      assert n in Names(e);
    } else {
      assert path == here;
      assert e.name in Names(e) && Under(path, dir, e.name);
    }
  }

  /** Whatever is listed below a directory other than the root begins with its path and a slash. */
  lemma WalkBelow(dir: string, e: Entries, path: string)
    requires path in Walk(dir, e) && SortedTree(e) && dir != ""
    ensures Below(path, dir)
    decreases e, 1
  {
    WalkUnder(dir, e, path);
    var n :| n in Names(e) && Under(path, dir, n);
    UnderBelow(path, dir, n);
  }

  predicate Below(path: string, dir: string) {
    |dir| < |path| && dir <= path && path[|dir|] == '/'
  }

  lemma UnderBelow(path: string, dir: string, n: Name)
    requires Under(path, dir, n) && dir != ""
    ensures Below(path, dir)
  {
    var c := Child(dir, n);
    assert c[|dir|] == '/' && c[..|dir|] == dir;
    assert path[|dir|] == c[|dir|];
  }

  lemma {:induction false} WalkHasChildren(dir: string, e: Entries, n: Name)
    requires n in Names(e)
    ensures Child(dir, n) in Walk(dir, e)
  {
    if n != e.name {
      WalkHasChildren(dir, e.after, n);
    }
  }

  lemma {:induction false} NamesProper(e: Entries)
    requires SortedTree(e)
    ensures forall m :: m in Names(e) ==> Proper(m)
  {
    if e.Entry? {
      NamesProper(e.after);
    }
  }

  /** A path goes before all that is listed below it. */
  lemma BeforeBelow(here: string, e: Entries)
    requires SortedTree(e) && here != ""
    ensures forall q :: q in Walk(here, e) ==> Less(here, q)
  {
    forall q | q in Walk(here, e)
      ensures Less(here, q)
    {
      WalkBelow(here, e, q);
      assert here + "" == here && here + q[|here|..] == q;
      LessPrefix(here, "", q[|here|..]);
    }
  }

  /** A directory entry and all below it. */
  function Branch(dir: string, e: Entries): seq<string>
    requires e.Entry?
  {
    [Child(dir, e.name)] + Walk(Child(dir, e.name), e.below)
  }

  predicate ApartFromAll(e: Entries)
    requires e.Entry?
  {
    e.below.Entry? ==> forall m :: m in Names(e.after) ==> Apart(e.name, m)
  }

  lemma BranchForm(dir: string, e: Entries, p: string) returns (u: string)
    requires SortedTree(e) && e.Entry? && p in Branch(dir, e)
    ensures p == Child(dir, e.name) + u && Ending(u) && (u == "" || e.below.Entry?)
  {
    var here := Child(dir, e.name);
    if p == here {
      u := "";
    } else {
      WalkBelow(here, e.below, p);
      u := After(p, here);
    }
  }

  lemma UnderForm(dir: string, e: Entries, q: string) returns (m: Name, v: string)
    requires SortedTree(e) && q in Walk(dir, e)
    ensures m in Names(e) && q == Child(dir, m) + v && Ending(v)
  {
    WalkUnder(dir, e, q);
    m :| m in Names(e) && Under(q, dir, m);
    v := After(q, Child(dir, m));
  }

  lemma After(p: string, a: string) returns (u: string)
    requires a <= p
    ensures p == a + u && u == p[|a|..]
  {
    u := p[|a|..];
  }

  /** A branch goes before the entries after it if it is apart from them. */
  lemma BeforeAfter(dir: string, e: Entries, p: string, q: string)
    requires SortedTree(e) && e.Entry? && ApartFromAll(e) && p in Branch(dir, e) && q in Walk(dir, e.after)
    ensures Less(p, q)
  {
    var u := BranchForm(dir, e, p);
    var m, v := UnderForm(dir, e.after, q);
    NamesProper(e.after);
    PathsDecide(dir, e.name, u, m, v);
  }

  /** And only then. */
  lemma NotBeforeAfter(dir: string, e: Entries) returns (p: string, q: string)
    requires SortedTree(e) && e.Entry? && !ApartFromAll(e)
    ensures p in Branch(dir, e) && q in Walk(dir, e.after) && !Less(p, q)
  {
    var m :| m in Names(e.after) && !Apart(e.name, m);
    var here, n := Child(dir, e.name), e.below.name;
    NamesProper(e.after);
    p, q := here + ("/" + n), Child(dir, m);
    WalkHasChildren(dir, e.after, m);
    WalkHasChildren(here, e.below, n);
    assert Child(here, n) == p && q == q + "";
    PathsDecide(dir, e.name, "/" + n, m, "");
  }

  lemma {:induction false} WalkIncreasing(dir: string, e: Entries)
    requires SortedTree(e)
    ensures Increasing(Walk(dir, e)) <==> Separated(e)
    decreases e
  {
    if e.Entry? {
      var here := Child(dir, e.name);
      WalkIncreasing(here, e.below);
      WalkIncreasing(dir, e.after);
      IncreasingConcat([here], Walk(here, e.below));
      IncreasingConcat(Branch(dir, e), Walk(dir, e.after));
      BeforeBelow(here, e.below);
      if ApartFromAll(e) {
        forall p, q | p in Branch(dir, e) && q in Walk(dir, e.after)
          ensures Less(p, q)
        {
          BeforeAfter(dir, e, p, q);
        }
      } else {
        var p, q := NotBeforeAfter(dir, e);
      }
    }
  }

  /**
   A listing made directory by directory, each sorted by name, is in the order of its paths if and only if no
   entry has a sibling whose name continues its own below the slash.
   */
  lemma ListingIncreasing(e: Entries)
    requires SortedTree(e)
    ensures Increasing(Listing(e)) <==> Separated(e)
  {
    WalkIncreasing("", e);
    IncreasingConcat([""], Walk("", e));
    forall q | q in Walk("", e)
      ensures Less("", q)
    {
      WalkUnder("", e, q);
      NamesProper(e);
    }
  }

  predicate NamesAbove(e: Entries) {
    e.Entry? ==> (forall k :: 0 <= k < |e.name| ==> e.name[k] > '/') && NamesAbove(e.below) && NamesAbove(e.after)
  }

  lemma {:induction false} NamesAboveMembers(e: Entries, m: Name)
    requires NamesAbove(e) && m in Names(e)
    ensures forall k :: 0 <= k < |m| ==> m[k] > '/'
  {
    if m != e.name {
      NamesAboveMembers(e.after, m);
    }
  }

  /** In particular it is in order if all characters of all names come after the slash, as in generated names. */
  lemma {:induction false} NamesAboveSeparated(e: Entries)
    requires NamesAbove(e)
    ensures Separated(e)
  {
    if e.Entry? {
      NamesAboveSeparated(e.below);
      NamesAboveSeparated(e.after);
      forall m | m in Names(e.after)
        ensures Apart(e.name, m)
      {
        NamesAboveMembers(e.after, m);
      }
    }
  }

  // ----- skipping

  function Kept(paths: seq<string>, skip: string -> bool): seq<string> {
    if paths == [] then []
    else Kept(paths[..|paths| - 1], skip) + if skip(paths[|paths| - 1]) then [] else [paths[|paths| - 1]]
  }

  /** Leaving out skipped paths does not disturb the order. */
  lemma {:induction false} KeptIncreasing(paths: seq<string>, skip: string -> bool)
    requires Increasing(paths)
    ensures Increasing(Kept(paths, skip)) && forall p :: p in Kept(paths, skip) <==> p in paths && !skip(p)
  {
    if paths != [] {
      var init, last := paths[..|paths| - 1], paths[|paths| - 1];
      assert paths == init + [last];
      KeptIncreasing(init, skip);
      IncreasingConcat(init, [last]);
      IncreasingConcat(Kept(init, skip), if skip(last) then [] else [last]);
    }
  }

  lemma {:induction false} KeptHead(paths: seq<string>, skip: string -> bool)
    requires paths != [] && !skip(paths[0])
    ensures Kept(paths, skip) != [] && Kept(paths, skip)[0] == paths[0]
    decreases |paths|
  {
    if |paths| > 1 {
      KeptHead(paths[..|paths| - 1], skip);
    } else {
      assert Kept(paths[..0], skip) == [];
    }
  }

  // ----- comparing two trees

  function RelPaths(list: seq<FileInfo>): seq<string> {
    seq(|list|, k requires 0 <= k < |list| => list[k].relPath)
  }

  /** A listing of a tree, without some skipped paths; the root is not skipped. */
  ghost predicate Lists(list: seq<FileInfo>, e: Entries, skip: string -> bool) {
    SortedTree(e) && !skip("") && RelPaths(list) == Kept(Listing(e), skip)
  }

  lemma ListedInOrder(list: seq<FileInfo>, e: Entries, skip: string -> bool)
    requires Lists(list, e, skip) && Separated(e)
    ensures list != [] && list[0].relPath == "" && Sorted(list)
  {
    ListingIncreasing(e);
    KeptIncreasing(Listing(e), skip);
    KeptHead(Listing(e), skip);
    assert RelPaths(list)[0] == list[0].relPath;
    forall i, j | 0 <= i < j < |list|
      ensures Less(list[i].relPath, list[j].relPath)
    {
      assert Less(RelPaths(list)[i], RelPaths(list)[j]);
    }
  }

  /**
   Two trees in which no non-empty directory has a sibling that continues its name below the slash, listed as
   they are and compared: the result is their exact difference.
   */
  lemma TreesDifference(s: Sides, fst: Entries, snd: Entries, skipFst: string -> bool, skipSnd: string -> bool)
    requires Lists(s.fst, fst, skipFst) && Lists(s.snd, snd, skipSnd) && Separated(fst) && Separated(snd)
    requires !s.SkipsFst("") && !s.SkipsSnd("")
    ensures InOrder(s)
    ensures forall d :: d in Difference(s) <==> Expected(s, d, 0, 0)
    ensures Descending(Difference(s))
    ensures Difference(s) == [] <==>
              forall p :: (HasFst(s, p) <==> HasSnd(s, p)) && (HasFst(s, p) && HasSnd(s, p) ==> SameHash(s, p))
  {
    ListedInOrder(s.fst, fst, skipFst);
    ListedInOrder(s.snd, snd, skipSnd);
    DifferenceExact(s);
    NoDifference(s);
  }

  // ----- paths are listed once

  predicate AllDifferent(paths: seq<string>) {
    forall i, j :: 0 <= i < j < |paths| ==> paths[i] != paths[j]
  }

  lemma {:induction false} SameStart(x: string, u: string, y: string, v: string)
    requires x + u == y + v && '/' !in x && '/' !in y && Ending(u) && Ending(v)
    ensures x == y
  {
    assert x == "" ==> x + u == u;
    assert y == "" ==> y + v == v;
    assert x != "" ==> (x + u)[0] == x[0];
    assert y != "" ==> (y + v)[0] == y[0];
    if x != "" && y != "" {
      assert (x + u)[1..] == x[1..] + u && (y + v)[1..] == y[1..] + v;
      SameStart(x[1..], u, y[1..], v);
      assert x == [x[0]] + x[1..] && y == [y[0]] + y[1..];
    }
  }

  lemma SameChild(dir: string, x: Name, u: string, y: Name, v: string)
    requires Child(dir, x) + u == Child(dir, y) + v && Proper(x) && Proper(y) && Ending(u) && Ending(v)
    ensures x == y
  {
    if dir == "" {
      SameStart(x, u, y, v);
    } else {
      ChildRegroup(dir, x, u);
      ChildRegroup(dir, y, v);
      var p := dir + "/";
      assert (p + (x + u))[|p|..] == x + u && (p + (y + v))[|p|..] == y + v;
      SameStart(x, u, y, v);
    }
  }

  lemma BranchApart(dir: string, e: Entries, p: string, q: string)
    requires SortedTree(e) && e.Entry? && p in Branch(dir, e) && q in Walk(dir, e.after)
    ensures p != q
  {
    var u := BranchForm(dir, e, p);
    var m, v := UnderForm(dir, e.after, q);
    NamesProper(e.after);
    LessTrichotomy(e.name, m);
    if p == q {
      SameChild(dir, e.name, u, m, v);
    }
  }

  lemma DifferentConcat(a: seq<string>, b: seq<string>)
    requires AllDifferent(a) && AllDifferent(b) && forall x, y :: x in a && y in b ==> x != y
    ensures AllDifferent(a + b)
  {
    forall i, j | 0 <= i < |a| && 0 <= j < |b|
      ensures a[i] != b[j]
    {
      assert a[i] in a && b[j] in b;
    }
  }

  lemma {:induction false} WalkDifferent(dir: string, e: Entries)
    requires SortedTree(e)
    ensures AllDifferent(Walk(dir, e))
    decreases e
  {
    if e.Entry? {
      var here := Child(dir, e.name);
      WalkDifferent(here, e.below);
      WalkDifferent(dir, e.after);
      forall q | q in Walk(here, e.below)
        ensures here != q
      {
        WalkBelow(here, e.below, q);
      }
      DifferentConcat([here], Walk(here, e.below));
      forall p, q | p in Branch(dir, e) && q in Walk(dir, e.after)
        ensures p != q
      {
        BranchApart(dir, e, p, q);
      }
      DifferentConcat(Branch(dir, e), Walk(dir, e.after));
    }
  }

  lemma NotRoot(e: Entries)
    requires SortedTree(e)
    ensures "" !in Walk("", e)
  {
    if "" in Walk("", e) {
      WalkUnder("", e, "");
      NamesProper(e);
    }
  }

  // ----- comparing a tree with its parts

  /** Some entries, with all below them, are left out. */
  predicate Pruned(e: Entries, t: Entries) {
    || t.None?
    || (e.Entry? && Pruned(e.after, t))
    || (e.Entry? && e.name == t.name && Pruned(e.below, t.below) && Pruned(e.after, t.after))
  }

  lemma {:induction false} PrunedNames(e: Entries, t: Entries)
    requires Pruned(e, t)
    ensures forall n :: n in Names(t) ==> n in Names(e)
  {
    if t.Entry? {
      if Pruned(e.after, t) {
        PrunedNames(e.after, t);
      } else {
        PrunedNames(e.after, t.after);
      }
    }
  }

  lemma {:induction false} PrunedSeparated(e: Entries, t: Entries)
    requires SortedTree(e) && Pruned(e, t)
    ensures SortedTree(t) && (Separated(e) ==> Separated(t))
  {
    if t.Entry? {
      if Pruned(e.after, t) {
        PrunedSeparated(e.after, t);
      } else {
        PrunedSeparated(e.below, t.below);
        PrunedSeparated(e.after, t.after);
        PrunedNames(e.after, t.after);
      }
    }
  }

  lemma OneBranch(dir: string, n: Name, below: Entries)
    ensures var w, b := Walk(dir, Entry(n, below, None)), Walk(Child(dir, n), below);
            w != [] && w[|w| - 1] == if b == [] then Child(dir, n) else b[|b| - 1]
  {
    var b := Walk(Child(dir, n), below);
    assert Walk(dir, None) == [];
    assert Walk(dir, Entry(n, below, None)) == [Child(dir, n)] + b;
  }

  /** The part that holds one path and what is above it; its listing ends with that path. */
  lemma {:induction false} PartFor(dir: string, e: Entries, q: string) returns (t: Entries)
    requires q in Walk(dir, e)
    ensures Pruned(e, t) && Walk(dir, t) != [] && Walk(dir, t)[|Walk(dir, t)| - 1] == q
    decreases e
  {
    var here := Child(dir, e.name);
    assert Walk(dir, e) == [here] + Walk(here, e.below) + Walk(dir, e.after);
    assert Pruned(e.below, None) && Pruned(e.after, None);
    if q == here {
      t := Entry(e.name, None, None);
      assert Walk(here, None) == [];
      OneBranch(dir, e.name, None);
    } else if q in Walk(here, e.below) {
      var below := PartFor(here, e.below, q);
      t := Entry(e.name, below, None);
      OneBranch(dir, e.name, below);
    } else {
      t := PartFor(dir, e.after, q);
    }
  }

  /** The listings of two trees, nothing skipped. */
  ghost predicate Compares(s: Sides, fst: Entries, snd: Entries) {
    && RelPaths(s.fst) == Listing(fst) && RelPaths(s.snd) == Listing(snd)
    && (forall p :: !s.SkipsFst(p)) && (forall p :: !s.SkipsSnd(p))
  }

  ghost predicate Exact(s: Sides)
    requires s.fst != [] && s.snd != []
  {
    forall d :: d in Difference(s) <==> Expected(s, d, 0, 0)
  }

  lemma ComparesInOrder(s: Sides, fst: Entries, snd: Entries)
    requires Compares(s, fst, snd) && SortedTree(fst) && SortedTree(snd) && Separated(fst) && Separated(snd)
    ensures InOrder(s)
  {
    PathsInOrder(s.fst, fst);
    PathsInOrder(s.snd, snd);
  }

  lemma PathsInOrder(list: seq<FileInfo>, e: Entries)
    requires RelPaths(list) == Listing(e) && SortedTree(e) && Separated(e)
    ensures list != [] && list[0].relPath == "" && Sorted(list)
  {
    ListingIncreasing(e);
    assert |list| == |Listing(e)|;
    assert RelPaths(list)[0] == list[0].relPath;
    forall i, j | 0 <= i < j < |list|
      ensures Less(list[i].relPath, list[j].relPath)
    {
      assert Less(RelPaths(list)[i], RelPaths(list)[j]);
    }
  }

  /** The entry compared first on the second side is met too late on the first: it is taken for one that only one side has. */
  lemma {:induction false} MissedFrom(s: Sides, x: nat, i: nat, j: nat, res: seq<FileDiff>)
    requires i < j <= x < |s.fst| && s.snd != []
    requires (forall p :: !s.SkipsFst(p)) && (forall p :: !s.SkipsSnd(p)) && AllDifferent(RelPaths(s.fst))
    requires s.snd[|s.snd| - 1].relPath == s.fst[i].relPath && Less(s.fst[j].relPath, s.fst[i].relPath)
    ensures OnlyOneExists(s.snd[|s.snd| - 1]) in Merge(s, x, |s.snd| - 1, res)
    decreases x
  {
    var last := |s.snd| - 1;
    var f, g := s.fst[x], s.snd[last];
    assert RelPaths(s.fst)[i] != RelPaths(s.fst)[x];
    LessTrichotomy(f.relPath, g.relPath);
    if Less(f.relPath, g.relPath) {
      assert Found(s, x, last) == [OnlyOneExists(g)];
      MergeFinds(s, x, last, res);
      assert (res + [OnlyOneExists(g)])[|res|] == OnlyOneExists(g);
    } else {
      assert Moves(s, x, last) == (true, false) && x > j;
      MissedFrom(s, x - 1, i, j, res + Found(s, x, last));
    }
  }

  lemma MissedAtAll(s: Sides, i: nat, j: nat)
    requires i < j < |s.fst| && s.snd != []
    requires (forall p :: !s.SkipsFst(p)) && (forall p :: !s.SkipsSnd(p)) && AllDifferent(RelPaths(s.fst))
    requires s.snd[|s.snd| - 1].relPath == s.fst[i].relPath && Less(s.fst[j].relPath, s.fst[i].relPath)
    ensures OnlyOneExists(s.snd[|s.snd| - 1]) in Difference(s)
  {
    MissedFrom(s, |s.fst| - 1, i, j, []);
  }

  /** Where two paths are listed in the wrong order, the first of them. */
  lemma OutOfOrder(e: Entries) returns (i: nat, j: nat)
    requires SortedTree(e) && !Separated(e)
    ensures 0 < i < j < |Listing(e)| && Less(Listing(e)[j], Listing(e)[i]) && Listing(e)[i] in Walk("", e)
  {
    var l := Listing(e);
    ListingIncreasing(e);
    i, j :| 0 <= i < j < |l| && !Less(l[i], l[j]);
    ListingDifferent(e);
    LessTrichotomy(l[i], l[j]);
    assert i > 0;
    assert l[i] == Walk("", e)[i - 1];
  }

  lemma ListingDifferent(e: Entries)
    requires SortedTree(e)
    ensures AllDifferent(Listing(e))
  {
    WalkDifferent("", e);
    NotRoot(e);
    DifferentConcat([""], Walk("", e));
  }

  /** Any listing of given paths. */
  function InfosOf(paths: seq<string>): seq<FileInfo> {
    seq(|paths|, k requires 0 <= k < |paths| => FileInfo(paths[k], paths[k], 0, 0, 0, 0, 0, false))
  }

  /** A tree that is not separated has a part with which it is compared wrongly. */
  lemma WrongPart(e: Entries) returns (t: Entries, s: Sides)
    requires SortedTree(e) && !Separated(e)
    ensures Pruned(e, t) && Compares(s, e, t) && s.fst != [] && s.snd != [] && !Exact(s)
  {
    var i, j := OutOfOrder(e);
    var q := Listing(e)[i];
    t := PartFor("", e, q);
    s := Sides(InfosOf(Listing(e)), InfosOf(Listing(t)), p => false, p => false, HasherOptions(false, false, false, false), c => 0);
    assert RelPaths(s.fst) == Listing(e) && RelPaths(s.snd) == Listing(t);
    Misreported(s, e, t, i, j);
  }

  /** Such a part is misreported whatever the metadata and the hash function are. */
  lemma Misreported(s: Sides, e: Entries, t: Entries, i: nat, j: nat)
    requires SortedTree(e) && Compares(s, e, t) && i < j < |Listing(e)| && Less(Listing(e)[j], Listing(e)[i])
    requires Listing(t)[|Listing(t)| - 1] == Listing(e)[i]
    ensures s.fst != [] && s.snd != [] && !Exact(s)
  {
    PathAt(s.fst, Listing(e), i);
    PathAt(s.fst, Listing(e), j);
    PathAt(s.snd, Listing(t), |Listing(t)| - 1);
    var d := OnlyOneExists(s.snd[|s.snd| - 1]);
    assert d in Difference(s) by {
      ListingDifferent(e);
      MissedAtAll(s, i, j);
    }
    assert !Expected(s, d, 0, 0) by { BothNotExpected(s, i, |s.snd| - 1); }
  }

  lemma PathAt(list: seq<FileInfo>, paths: seq<string>, k: nat)
    requires RelPaths(list) == paths && k < |paths|
    ensures |list| == |paths| && list[k].relPath == paths[k]
  {
    assert |list| == |RelPaths(list)|;
  }

  /** What both sides have is not expected as being on one side. */
  lemma BothNotExpected(s: Sides, a: nat, b: nat)
    requires a < |s.fst| && b < |s.snd| && s.fst[a].relPath == s.snd[b].relPath
    requires !s.SkipsFst(s.fst[a].relPath) && !s.SkipsSnd(s.snd[b].relPath)
    ensures !Expected(s, OnlyOneExists(s.snd[b]), 0, 0)
  {
    assert HasFst(s, s.snd[b].relPath) && HasSnd(s, s.snd[b].relPath);
  }

  /**
   A tree is compared exactly with every part of it, whatever the metadata and the hash function, if and only
   if no non-empty directory of it has a sibling that continues its name below the slash.
   */
  lemma PartsCompared(e: Entries)
    requires SortedTree(e)
    ensures Separated(e) <==> forall t, s :: Pruned(e, t) && Compares(s, e, t) ==> s.fst != [] && s.snd != [] && Exact(s)
  {
    if Separated(e) {
      forall t, s | Pruned(e, t) && Compares(s, e, t)
        ensures s.fst != [] && s.snd != [] && Exact(s)
      {
        PrunedSeparated(e, t);
        ComparesInOrder(s, e, t);
        DifferenceExact(s);
      }
    } else {
      var t, s := WrongPart(e);
    }
  }

  // ----- where the order goes wrong

  const DOTTED := Entry("a", Entry("b", None, None), Entry("a.txt", None, None))

  lemma DottedListing()
    ensures SortedTree(DOTTED) && Listing(DOTTED) == ["", "a", "a/b", "a.txt"]
    ensures !Increasing(Listing(DOTTED))
  {
    assert Names(DOTTED.after) == ["a.txt"];
    var x, y := "a", "a.txt";
    assert x[1..] == "" && y[1..] == ".txt";
    assert Less(x, y) by { assert Less(x[1..], y[1..]); }
    var p, q := "a/b", "a.txt";
    assert p[1..][0] == '/' && q[1..][0] == '.';
    assert !Less(p, q) by { assert !Less(p[1..], q[1..]); }
    assert Child("a", "b") == p;
    assert Walk("a", DOTTED.below) == [p];
    assert Walk("", DOTTED.after) == [q];
    assert Listing(DOTTED)[2] == p && Listing(DOTTED)[3] == q;
  }

  /** Then a path that both listings have is reported as being in one of them only. */
  lemma DottedDifference(s: Sides)
    requires |s.fst| == 4 && forall k :: 0 <= k < 4 ==> s.fst[k].relPath == Listing(DOTTED)[k] && !s.SkipsFst(s.fst[k].relPath)
    requires |s.snd| == 3 && forall k :: 0 <= k < 3 ==> s.snd[k].relPath == Listing(DOTTED)[k] && !s.SkipsSnd(s.snd[k].relPath)
    ensures HasFst(s, "a/b") && HasSnd(s, "a/b") && OnlyOneExists(s.snd[2]) in Difference(s)
  {
    DottedListing();
    assert s.fst[2].relPath == "a/b" && s.snd[2].relPath == "a/b" && s.fst[3].relPath == "a.txt";
    var p, q := "a/b", "a.txt";
    assert p[1..][0] == '/' && q[1..][0] == '.';
    assert !Less(p, q) by { assert !Less(p[1..], q[1..]); }
    assert Found(s, 3, 2) == [OnlyOneExists(s.snd[2])] && Moves(s, 3, 2) == (false, true);
    var res := [] + Found(s, 3, 2);
    assert Difference(s) == Merge(s, 3, 1, res);
    MergeKeeps(s, 3, 1, res);
    assert res[0] in res;
  }
}

/**
 The difference of two directory listings (dash/src/lib.rs, get_diff and calc_fileinfo_hash): two indices
 that start at the ends. The hash is some function of what is fed to it, and the skip patterns are some
 predicates on paths.
 */
module Listings {
  datatype FileInfo = FileInfo(
    absPath: string,
    relPath: string,
    gid: nat,
    uid: nat,
    size: nat,
    nlink: nat,
    mode: nat,
    isDir: bool)

  datatype FileDiff = FileIsDifferent(fst: FileInfo, snd: FileInfo) | OnlyOneExists(info: FileInfo)

  datatype HasherOptions = HasherOptions(size: bool, fileNlink: bool, dirNlink: bool, mode: bool)

  /** One write to the hasher. */
  datatype Chunk = Bytes(text: string) | U32(n: nat) | U64(n: nat)

  function Fed(f: FileInfo, o: HasherOptions): seq<Chunk> {
    [Bytes(f.relPath), U32(f.gid), U32(f.uid)]
    + (if o.size then [U64(f.size)] else [])
    + (if (f.isDir && o.dirNlink) || (!f.isDir && o.fileNlink) then [U64(f.nlink)] else [])
    + (if o.mode then [U32(f.mode)] else [])
  }

  // ----- the order of strings

  predicate Less(a: string, b: string) {
    if b == "" then false
    else if a == "" then true
    else if a[0] != b[0] then a[0] < b[0]
    else Less(a[1..], b[1..])
  }

  lemma {:induction false} LessTrichotomy(a: string, b: string)
    ensures (Less(a, b) && a != b && !Less(b, a)) || (a == b && !Less(a, b) && !Less(b, a)) || (Less(b, a) && a != b && !Less(a, b))
  {
    if a != "" && b != "" && a[0] == b[0] {
      LessTrichotomy(a[1..], b[1..]);
      assert a == [a[0]] + a[1..] && b == [b[0]] + b[1..];
    }
  }

  lemma {:induction false} LessTransitive(a: string, b: string, c: string)
    requires Less(a, b) && Less(b, c)
    ensures Less(a, c)
  {
    if a != "" && a[0] == b[0] && b[0] == c[0] {
      LessTransitive(a[1..], b[1..], c[1..]);
    }
  }

  // ----- what the difference should be

  /** Two listings and how they are looked at. */
  datatype Sides = Sides(
    fst: seq<FileInfo>,
    snd: seq<FileInfo>,
    fstSkip: string -> bool,
    sndSkip: string -> bool,
    options: HasherOptions,
    hash: seq<Chunk> -> nat)
  {
    predicate SkipsFst(path: string) { fstSkip(path) }
    predicate SkipsSnd(path: string) { sndSkip(path) }
    function Digest(fed: seq<Chunk>): nat { hash(fed) }
  }

  /**
   What a listing feeds to the hasher for every path that has the given one as a prefix, as text: for "a" that
   is "a" itself, everything below it, and also "a.txt".
   */
  function FedBelow(list: seq<FileInfo>, path: string, o: HasherOptions): seq<Chunk> {
    if list == [] then []
    else
      var last := list[|list| - 1];
      FedBelow(list[..|list| - 1], path, o) + if path <= last.relPath then Fed(last, o) else []
  }

  predicate Sorted(list: seq<FileInfo>) {
    forall i, j :: 0 <= i < j < |list| ==> Less(list[i].relPath, list[j].relPath)
  }

  /** Listings as they should be: in order, and each beginning with the root, which is not skipped. */
  predicate InOrder(s: Sides) {
    && s.fst != [] && s.snd != [] && Sorted(s.fst) && Sorted(s.snd)
    && s.fst[0].relPath == "" && s.snd[0].relPath == "" && !s.SkipsFst("") && !s.SkipsSnd("")
  }

  predicate HasFst(s: Sides, path: string) {
    exists a :: 0 <= a < |s.fst| && s.fst[a].relPath == path && !s.SkipsFst(path)
  }

  predicate HasSnd(s: Sides, path: string) {
    exists b :: 0 <= b < |s.snd| && s.snd[b].relPath == path && !s.SkipsSnd(path)
  }

  predicate SameHash(s: Sides, path: string) {
    s.Digest(FedBelow(s.fst, path, s.options)) == s.Digest(FedBelow(s.snd, path, s.options))
  }

  /** An entry of the first listing from index i on that the second lacks. */
  predicate OnlyFst(s: Sides, f: FileInfo, i: int) {
    exists a :: 0 <= a < |s.fst| && i <= a && s.fst[a] == f && !s.SkipsFst(f.relPath) && !HasSnd(s, f.relPath)
  }

  predicate OnlySnd(s: Sides, f: FileInfo, j: int) {
    exists b :: 0 <= b < |s.snd| && j <= b && s.snd[b] == f && !s.SkipsSnd(f.relPath) && !HasFst(s, f.relPath)
  }

  predicate Different(s: Sides, f: FileInfo, g: FileInfo, i: int, j: int) {
    exists a, b :: 0 <= a < |s.fst| && i <= a && 0 <= b < |s.snd| && j <= b && s.fst[a] == f && s.snd[b] == g
      && f.relPath == g.relPath && !s.SkipsFst(f.relPath) && !s.SkipsSnd(g.relPath) && !SameHash(s, f.relPath)
  }

  /** The differences due to entries from index i of the first and j of the second listing on. */
  predicate Expected(s: Sides, d: FileDiff, i: int, j: int) {
    match d
    case OnlyOneExists(f) => OnlyFst(s, f, i) || OnlySnd(s, f, j)
    case FileIsDifferent(f, g) => Different(s, f, g, i, j)
  }

  function PathOf(d: FileDiff): string {
    match d
    case OnlyOneExists(f) => f.relPath
    case FileIsDifferent(f, _) => f.relPath
  }

  predicate Descending(res: seq<FileDiff>) {
    forall i, j :: 0 <= i < j < |res| ==> Less(PathOf(res[j]), PathOf(res[i]))
  }

  // ----- what the two pointers keep

  /** Entries from i and j on are done; whatever of them was not skipped lies above everything still to come. */
  ghost predicate Merged(s: Sides, i: nat, j: nat, res: seq<FileDiff>) {
    && i <= |s.fst| && j <= |s.snd|
    && (forall d :: d in res <==> Expected(s, d, i, j))
    && Descending(res)
    && (forall a, b :: i <= a < |s.fst| && 0 <= b < j && !s.SkipsFst(s.fst[a].relPath) ==> Less(s.snd[b].relPath, s.fst[a].relPath))
    && (forall a, b :: 0 <= a < i && j <= b < |s.snd| && !s.SkipsSnd(s.snd[b].relPath) ==> Less(s.fst[a].relPath, s.snd[b].relPath))
  }

  /** All differences found so far lie above an entry of the first listing still to come. */
  lemma AboveFst(s: Sides, i: nat, j: nat, res: seq<FileDiff>, a: nat)
    requires InOrder(s) && Merged(s, i, j, res) && a < i
    ensures forall d :: d in res ==> Less(s.fst[a].relPath, PathOf(d))
  {
    forall d | d in res
      ensures Less(s.fst[a].relPath, PathOf(d))
    {
      assert Expected(s, d, i, j);
    }
  }

  lemma AboveSnd(s: Sides, i: nat, j: nat, res: seq<FileDiff>, b: nat)
    requires InOrder(s) && Merged(s, i, j, res) && b < j
    ensures forall d :: d in res ==> Less(s.snd[b].relPath, PathOf(d))
  {
    forall d | d in res
      ensures Less(s.snd[b].relPath, PathOf(d))
    {
      assert Expected(s, d, i, j);
    }
  }

  lemma DescendingSnoc(res: seq<FileDiff>, d: FileDiff)
    requires Descending(res) && forall e :: e in res ==> Less(PathOf(d), PathOf(e))
    ensures Descending(res + [d])
  {
  }

  /** An entry of the first listing that the second cannot have: all its entries are above or below. */
  lemma NotInSnd(s: Sides, i: nat, j: nat, res: seq<FileDiff>)
    requires InOrder(s) && Merged(s, i, j, res) && i > 0 && j > 0
    requires Less(s.snd[j - 1].relPath, s.fst[i - 1].relPath)
    ensures !HasSnd(s, s.fst[i - 1].relPath)
    ensures forall b :: 0 <= b < j ==> Less(s.snd[b].relPath, s.fst[i - 1].relPath)
  {
    var p := s.fst[i - 1].relPath;
    forall b | 0 <= b < j
      ensures Less(s.snd[b].relPath, p)
    {
      if b < j - 1 {
        LessTransitive(s.snd[b].relPath, s.snd[j - 1].relPath, p);
      }
    }
    LessTrichotomy(p, p);
    forall b | 0 <= b < |s.snd| && !s.SkipsSnd(s.snd[b].relPath)
      ensures s.snd[b].relPath != p
    {
      assert b < j || Less(p, s.snd[b].relPath);
    }
  }

  lemma NotInFst(s: Sides, i: nat, j: nat, res: seq<FileDiff>)
    requires InOrder(s) && Merged(s, i, j, res) && i > 0 && j > 0
    requires Less(s.fst[i - 1].relPath, s.snd[j - 1].relPath)
    ensures !HasFst(s, s.snd[j - 1].relPath)
    ensures forall a :: 0 <= a < i ==> Less(s.fst[a].relPath, s.snd[j - 1].relPath)
  {
    var p := s.snd[j - 1].relPath;
    forall a | 0 <= a < i
      ensures Less(s.fst[a].relPath, p)
    {
      if a < i - 1 {
        LessTransitive(s.fst[a].relPath, s.fst[i - 1].relPath, p);
      }
    }
    LessTrichotomy(p, p);
    forall a | 0 <= a < |s.fst| && !s.SkipsFst(s.fst[a].relPath)
      ensures s.fst[a].relPath != p
    {
      assert a < i || Less(p, s.fst[a].relPath);
    }
  }

  /** What one more entry of the first listing changes in what is expected. */
  lemma ExpectedFst(s: Sides, i: nat, j: nat, d: FileDiff)
    requires 0 < i <= |s.fst|
    requires s.SkipsFst(s.fst[i - 1].relPath) || forall b :: j <= b < |s.snd| && !s.SkipsSnd(s.snd[b].relPath) ==> s.snd[b].relPath != s.fst[i - 1].relPath
    ensures Expected(s, d, i - 1, j) <==>
              Expected(s, d, i, j)
              || (d == OnlyOneExists(s.fst[i - 1]) && !s.SkipsFst(s.fst[i - 1].relPath) && !HasSnd(s, s.fst[i - 1].relPath))
  {
    match d
    case OnlyOneExists(f) =>
      assert OnlyFst(s, f, i - 1) <==> OnlyFst(s, f, i) || (f == s.fst[i - 1] && !s.SkipsFst(f.relPath) && !HasSnd(s, f.relPath));
    case FileIsDifferent(f, g) =>
      assert Different(s, f, g, i - 1, j) <==> Different(s, f, g, i, j);
  }

  lemma ExpectedSnd(s: Sides, i: nat, j: nat, d: FileDiff)
    requires 0 < j <= |s.snd|
    requires s.SkipsSnd(s.snd[j - 1].relPath) || forall a :: i <= a < |s.fst| && !s.SkipsFst(s.fst[a].relPath) ==> s.fst[a].relPath != s.snd[j - 1].relPath
    ensures Expected(s, d, i, j - 1) <==>
              Expected(s, d, i, j)
              || (d == OnlyOneExists(s.snd[j - 1]) && !s.SkipsSnd(s.snd[j - 1].relPath) && !HasFst(s, s.snd[j - 1].relPath))
  {
    match d
    case OnlyOneExists(f) =>
      assert OnlySnd(s, f, j - 1) <==> OnlySnd(s, f, j) || (f == s.snd[j - 1] && !s.SkipsSnd(f.relPath) && !HasFst(s, f.relPath));
    case FileIsDifferent(f, g) =>
      assert Different(s, f, g, i, j - 1) <==> Different(s, f, g, i, j);
  }

  lemma SkipFst(s: Sides, i: nat, j: nat, res: seq<FileDiff>)
    requires InOrder(s) && Merged(s, i, j, res) && i > 0 && s.SkipsFst(s.fst[i - 1].relPath)
    ensures Merged(s, i - 1, j, res)
  {
    forall d
      ensures d in res <==> Expected(s, d, i - 1, j)
    {
      ExpectedFst(s, i, j, d);
    }
  }

  lemma SkipSnd(s: Sides, i: nat, j: nat, res: seq<FileDiff>)
    requires InOrder(s) && Merged(s, i, j, res) && j > 0 && s.SkipsSnd(s.snd[j - 1].relPath)
    ensures Merged(s, i, j - 1, res)
  {
    forall d
      ensures d in res <==> Expected(s, d, i, j - 1)
    {
      ExpectedSnd(s, i, j, d);
    }
  }

  lemma TakeFst(s: Sides, i: nat, j: nat, res: seq<FileDiff>)
    requires InOrder(s) && Merged(s, i, j, res) && i > 0 && j > 0
    requires !s.SkipsFst(s.fst[i - 1].relPath) && Less(s.snd[j - 1].relPath, s.fst[i - 1].relPath)
    ensures Merged(s, i - 1, j, res + [OnlyOneExists(s.fst[i - 1])])
  {
    NotInSnd(s, i, j, res);
    var res' := res + [OnlyOneExists(s.fst[i - 1])];
    forall d
      ensures d in res' <==> Expected(s, d, i - 1, j)
    {
      NotHeld(s, j, s.fst[i - 1].relPath);
      ExpectedFst(s, i, j, d);
    }
    AboveFst(s, i, j, res, i - 1);
    DescendingSnoc(res, OnlyOneExists(s.fst[i - 1]));
  }

  lemma NotHeld(s: Sides, j: nat, path: string)
    requires !HasSnd(s, path)
    ensures forall b :: j <= b < |s.snd| && !s.SkipsSnd(s.snd[b].relPath) ==> s.snd[b].relPath != path
  {
  }

  lemma NotHeldFst(s: Sides, i: nat, path: string)
    requires !HasFst(s, path)
    ensures forall a :: i <= a < |s.fst| && !s.SkipsFst(s.fst[a].relPath) ==> s.fst[a].relPath != path
  {
  }

  lemma TakeSnd(s: Sides, i: nat, j: nat, res: seq<FileDiff>)
    requires InOrder(s) && Merged(s, i, j, res) && i > 0 && j > 0
    requires !s.SkipsSnd(s.snd[j - 1].relPath) && Less(s.fst[i - 1].relPath, s.snd[j - 1].relPath)
    ensures Merged(s, i, j - 1, res + [OnlyOneExists(s.snd[j - 1])])
  {
    NotInFst(s, i, j, res);
    var res' := res + [OnlyOneExists(s.snd[j - 1])];
    forall d
      ensures d in res' <==> Expected(s, d, i, j - 1)
    {
      NotHeldFst(s, i, s.snd[j - 1].relPath);
      ExpectedSnd(s, i, j, d);
    }
    AboveSnd(s, i, j, res, j - 1);
    DescendingSnoc(res, OnlyOneExists(s.snd[j - 1]));
  }

  /** Entries that meet are none that only one listing has. */
  lemma OnlyUnchanged(s: Sides, i: nat, j: nat, f: FileInfo)
    requires 0 < i <= |s.fst| && 0 < j <= |s.snd|
    requires s.fst[i - 1].relPath == s.snd[j - 1].relPath
    requires !s.SkipsFst(s.fst[i - 1].relPath) && !s.SkipsSnd(s.fst[i - 1].relPath)
    ensures OnlyFst(s, f, i - 1) <==> OnlyFst(s, f, i)
    ensures OnlySnd(s, f, j - 1) <==> OnlySnd(s, f, j)
  {
    assert HasFst(s, s.fst[i - 1].relPath) && HasSnd(s, s.fst[i - 1].relPath);
  }

  /** Entries that meet are in no other pair. */
  lemma DifferentBoth(s: Sides, i: nat, j: nat, f: FileInfo, g: FileInfo)
    requires 0 < i <= |s.fst| && 0 < j <= |s.snd|
    requires s.fst[i - 1].relPath == s.snd[j - 1].relPath
    requires !s.SkipsFst(s.fst[i - 1].relPath) && !s.SkipsSnd(s.fst[i - 1].relPath)
    requires forall a :: i <= a < |s.fst| && !s.SkipsFst(s.fst[a].relPath) ==> s.fst[a].relPath != s.snd[j - 1].relPath
    requires forall b :: j <= b < |s.snd| && !s.SkipsSnd(s.snd[b].relPath) ==> s.snd[b].relPath != s.fst[i - 1].relPath
    ensures Different(s, f, g, i - 1, j - 1) <==>
              Different(s, f, g, i, j) || (f == s.fst[i - 1] && g == s.snd[j - 1] && !SameHash(s, f.relPath))
  {
    if Different(s, f, g, i - 1, j - 1) {
      var a, b :| 0 <= a < |s.fst| && i - 1 <= a && 0 <= b < |s.snd| && j - 1 <= b && s.fst[a] == f && s.snd[b] == g
        && f.relPath == g.relPath && !s.SkipsFst(f.relPath) && !s.SkipsSnd(g.relPath) && !SameHash(s, f.relPath);
      assert (a == i - 1 && b == j - 1) || (a >= i && b >= j);
    }
  }

  lemma TakeBoth(s: Sides, i: nat, j: nat, res: seq<FileDiff>, res': seq<FileDiff>)
    requires InOrder(s) && Merged(s, i, j, res) && i > 0 && j > 0
    requires s.fst[i - 1].relPath == s.snd[j - 1].relPath
    requires !s.SkipsFst(s.fst[i - 1].relPath) && !s.SkipsSnd(s.fst[i - 1].relPath)
    requires res' == if SameHash(s, s.fst[i - 1].relPath) then res else res + [FileIsDifferent(s.fst[i - 1], s.snd[j - 1])]
    ensures Merged(s, i - 1, j - 1, res')
  {
    LessTrichotomy(s.fst[i - 1].relPath, s.fst[i - 1].relPath);
    forall d
      ensures d in res' <==> Expected(s, d, i - 1, j - 1)
    {
      match d
      case OnlyOneExists(f) => OnlyUnchanged(s, i, j, f);
      case FileIsDifferent(f, g) => DifferentBoth(s, i, j, f, g);
    }
    AboveFst(s, i, j, res, i - 1);
    if !SameHash(s, s.fst[i - 1].relPath) {
      DescendingSnoc(res, FileIsDifferent(s.fst[i - 1], s.snd[j - 1]));
    }
  }

  lemma MergeBegins(s: Sides)
    requires InOrder(s)
    ensures Merged(s, |s.fst|, |s.snd|, [])
  {
    forall d
      ensures !Expected(s, d, |s.fst|, |s.snd|)
    {
    }
  }

  // ----- the merge as a function

  /** Pushes the entries of a listing from an index down to its first. */
  function LeftOver(list: seq<FileInfo>, i: int, res: seq<FileDiff>): seq<FileDiff>
    requires i < |list|
    decreases i
  {
    if i < 0 then res else LeftOver(list, i - 1, res + [OnlyOneExists(list[i])])
  }

  /** The entries from an index down to the first. */
  function Downwards(list: seq<FileInfo>, i: nat): seq<FileDiff>
    requires i < |list|
  {
    seq(i + 1, k requires 0 <= k <= i => OnlyOneExists(list[i - k]))
  }

  /** All of them are pushed, one after another. */
  lemma {:induction false} LeftOverExactly(list: seq<FileInfo>, i: nat, res: seq<FileDiff>)
    requires i < |list|
    ensures LeftOver(list, i, res) == res + Downwards(list, i)
    decreases i
  {
    var d := OnlyOneExists(list[i]);
    if i > 0 {
      LeftOverExactly(list, i - 1, res + [d]);
      assert Downwards(list, i) == [d] + Downwards(list, i - 1);
      assert res + [d] + Downwards(list, i - 1) == res + ([d] + Downwards(list, i - 1));
    } else {
      assert Downwards(list, i) == [d];
      assert LeftOver(list, -1, res + [d]) == res + [d];
    }
  }

  /** Entries left over once the other listing is exhausted; index 0 alone means that none are. */
  function Tail(list: seq<FileInfo>, i: nat, res: seq<FileDiff>): seq<FileDiff>
    requires i < |list|
  {
    if i == 0 then res else LeftOver(list, i, res)
  }

  /** What looking at entry i of the first and j of the second listing adds. */
  function Found(s: Sides, i: nat, j: nat): seq<FileDiff>
    requires i < |s.fst| && j < |s.snd|
  {
    var f, g := s.fst[i], s.snd[j];
    if s.SkipsFst(f.relPath) || s.SkipsSnd(g.relPath) then []
    else if f.relPath == g.relPath then if SameHash(s, f.relPath) then [] else [FileIsDifferent(f, g)]
    else if Less(g.relPath, f.relPath) then [OnlyOneExists(f)]
    else [OnlyOneExists(g)]
  }

  /** Whether the first pointer moves down, and whether the second does. */
  function Moves(s: Sides, i: nat, j: nat): (bool, bool)
    requires i < |s.fst| && j < |s.snd|
  {
    var f, g := s.fst[i], s.snd[j];
    if s.SkipsFst(f.relPath) then (true, false)
    else if s.SkipsSnd(g.relPath) then (false, true)
    else if f.relPath == g.relPath then (true, true)
    else if Less(g.relPath, f.relPath) then (true, false)
    else (false, true)
  }

  function Merge(s: Sides, i: nat, j: nat, res: seq<FileDiff>): seq<FileDiff>
    requires i < |s.fst| && j < |s.snd|
    decreases i + j
  {
    var (fst, snd) := Moves(s, i, j);
    var res' := res + Found(s, i, j);
    if (fst && i == 0) || (snd && j == 0) then Tail(s.snd, j, Tail(s.fst, i, res'))
    else Merge(s, if fst then i - 1 else i, if snd then j - 1 else j, res')
  }

  function Difference(s: Sides): seq<FileDiff>
    requires s.fst != [] && s.snd != []
  {
    Merge(s, |s.fst| - 1, |s.snd| - 1, [])
  }

  /** One look at both listings keeps what the pointers keep. */
  lemma FoundMerged(s: Sides, i: nat, j: nat, res: seq<FileDiff>)
    requires InOrder(s) && i < |s.fst| && j < |s.snd| && Merged(s, i + 1, j + 1, res)
    ensures var (fst, snd) := Moves(s, i, j);
            Merged(s, if fst then i else i + 1, if snd then j else j + 1, res + Found(s, i, j))
  {
    var f, g := s.fst[i], s.snd[j];
    LessTrichotomy(f.relPath, g.relPath);
    assert res + [] == res;
    if s.SkipsFst(f.relPath) {
      SkipFst(s, i + 1, j + 1, res);
    } else if s.SkipsSnd(g.relPath) {
      SkipSnd(s, i + 1, j + 1, res);
    } else if f.relPath == g.relPath {
      TakeBoth(s, i + 1, j + 1, res, res + Found(s, i, j));
    } else if Less(g.relPath, f.relPath) {
      TakeFst(s, i + 1, j + 1, res);
    } else {
      TakeSnd(s, i + 1, j + 1, res);
    }
  }

  /** Both pointers arrive at the root together. */
  lemma EndsTogether(s: Sides, i: nat, j: nat)
    requires InOrder(s) && i < |s.fst| && j < |s.snd|
    requires var (fst, snd) := Moves(s, i, j); (fst && i == 0) || (snd && j == 0)
    ensures i == 0 && j == 0 && Moves(s, i, j) == (true, true)
  {
    assert i > 0 ==> Less(s.fst[0].relPath, s.fst[i].relPath);
    assert j > 0 ==> Less(s.snd[0].relPath, s.snd[j].relPath);
  }

  lemma {:induction false} MergeExact(s: Sides, i: nat, j: nat, res: seq<FileDiff>)
    requires InOrder(s) && i < |s.fst| && j < |s.snd| && Merged(s, i + 1, j + 1, res)
    ensures Merged(s, 0, 0, Merge(s, i, j, res))
    decreases i + j
  {
    var (fst, snd) := Moves(s, i, j);
    FoundMerged(s, i, j, res);
    if (fst && i == 0) || (snd && j == 0) {
      EndsTogether(s, i, j);
    } else {
      MergeExact(s, if fst then i - 1 else i, if snd then j - 1 else j, res + Found(s, i, j));
    }
  }

  /**
   For listings in order that start with the unskipped root, the result is exactly the entries that only one
   of them has unskipped, and the entries of both whose hashes differ, in descending order of paths and
   therefore once each. The left-over handling adds nothing.
   */
  lemma DifferenceExact(s: Sides)
    requires InOrder(s)
    ensures forall d :: d in Difference(s) <==> Expected(s, d, 0, 0)
    ensures Descending(Difference(s))
  {
    MergeBegins(s);
    MergeExact(s, |s.fst| - 1, |s.snd| - 1, []);
  }

  /** The two listings show no difference exactly when they have the same unskipped paths with the same hashes. */
  lemma NoDifference(s: Sides)
    requires InOrder(s)
    ensures Difference(s) == [] <==>
              forall p :: (HasFst(s, p) <==> HasSnd(s, p)) && (HasFst(s, p) && HasSnd(s, p) ==> SameHash(s, p))
  {
    DifferenceExact(s);
    if Difference(s) == [] {
      assert forall d :: !Expected(s, d, 0, 0);
      forall p
        ensures (HasFst(s, p) <==> HasSnd(s, p)) && (HasFst(s, p) && HasSnd(s, p) ==> SameHash(s, p))
      {
        if a :| 0 <= a < |s.fst| && s.fst[a].relPath == p && !s.SkipsFst(p) {
          if !HasSnd(s, p) {
            assert OnlyFst(s, s.fst[a], 0) && Expected(s, OnlyOneExists(s.fst[a]), 0, 0);
          } else {
            var b :| 0 <= b < |s.snd| && s.snd[b].relPath == p && !s.SkipsSnd(p);
            assert SameHash(s, p) || (Different(s, s.fst[a], s.snd[b], 0, 0) && Expected(s, FileIsDifferent(s.fst[a], s.snd[b]), 0, 0));
          }
        } else if b :| 0 <= b < |s.snd| && s.snd[b].relPath == p && !s.SkipsSnd(p) {
          assert OnlySnd(s, s.snd[b], 0) && Expected(s, OnlyOneExists(s.snd[b]), 0, 0);
        }
      }
    } else {
      var d := Difference(s)[0];
      assert Expected(s, d, 0, 0);
    }
  }

  /** What has been pushed stays. */
  lemma {:induction false} LeftOverKeeps(list: seq<FileInfo>, i: int, res: seq<FileDiff>)
    requires i < |list|
    ensures res <= LeftOver(list, i, res)
    decreases i
  {
    if i >= 0 {
      LeftOverKeeps(list, i - 1, res + [OnlyOneExists(list[i])]);
    }
  }

  lemma {:induction false} MergeKeeps(s: Sides, i: nat, j: nat, res: seq<FileDiff>)
    requires i < |s.fst| && j < |s.snd|
    ensures res <= Merge(s, i, j, res)
    decreases i + j
  {
    var (fst, snd) := Moves(s, i, j);
    var res' := res + Found(s, i, j);
    if (fst && i == 0) || (snd && j == 0) {
      LeftOverKeeps(s.fst, i, res');
      LeftOverKeeps(s.snd, j, Tail(s.fst, i, res'));
    } else {
      MergeKeeps(s, if fst then i - 1 else i, if snd then j - 1 else j, res');
    }
  }

  lemma MergeFinds(s: Sides, i: nat, j: nat, res: seq<FileDiff>)
    requires i < |s.fst| && j < |s.snd|
    ensures res + Found(s, i, j) <= Merge(s, i, j, res)
  {
    var (fst, snd) := Moves(s, i, j);
    var res' := res + Found(s, i, j);
    if (fst && i == 0) || (snd && j == 0) {
      LeftOverKeeps(s.fst, i, res');
      LeftOverKeeps(s.snd, j, Tail(s.fst, i, res'));
    } else {
      MergeKeeps(s, if fst then i - 1 else i, if snd then j - 1 else j, res');
    }
  }

  // ----- the loops

  method CalcFileInfoHash(s: Sides, list: seq<FileInfo>, relPath: string) returns (h: nat)
    ensures h == s.Digest(FedBelow(list, relPath, s.options))
  {
    var fed: seq<Chunk> := [];
    var i := 0;
    while i < |list|
      invariant 0 <= i <= |list|
      invariant fed == FedBelow(list[..i], relPath, s.options)
    {
      assert list[..i + 1][..i] == list[..i];
      if relPath <= list[i].relPath {
        fed := fed + Fed(list[i], s.options);
      }
      i := i + 1;
    }
    assert list[..i] == list;
    return s.Digest(fed);
  }

  /** Entries left over in one listing; index 0 alone means that none are. */
  method HandleLastDiff(last: nat, list: seq<FileInfo>, res: seq<FileDiff>) returns (res': seq<FileDiff>)
    requires last < |list|
    ensures res' == Tail(list, last, res)
  {
    res' := res;
    if last > 0 {
      var i := last;
      while true
        invariant 0 <= i <= last
        invariant LeftOver(list, i, res') == LeftOver(list, last, res)
        decreases i
      {
        res' := res' + [OnlyOneExists(list[i])];
        if i == 0 {
          break;
        }
        i := i - 1;
      }
    }
  }

  /** One turn of the loop: what it pushes, and which pointers it wants to move down. */
  method Compare(s: Sides, i: nat, j: nat) returns (found: seq<FileDiff>, fst: bool, snd: bool)
    requires i < |s.fst| && j < |s.snd|
    ensures found == Found(s, i, j) && (fst, snd) == Moves(s, i, j)
  {
    var f, g := s.fst[i], s.snd[j];
    if s.SkipsFst(f.relPath) {
      return [], true, false;
    }
    if s.SkipsSnd(g.relPath) {
      return [], false, true;
    }
    if f.relPath == g.relPath {
      var hashFst := CalcFileInfoHash(s, s.fst, f.relPath);
      var hashSnd := CalcFileInfoHash(s, s.snd, g.relPath);
      if hashFst != hashSnd {
        return [FileIsDifferent(f, g)], true, true;
      }
      return [], true, true;
    }
    if Less(g.relPath, f.relPath) {
      return [OnlyOneExists(f)], true, false;
    }
    return [OnlyOneExists(g)], false, true;
  }

  /**
   The differences of two listings, neither of them empty. What is exact about the result is stated by
   DifferenceExact.
   */
  method GetDiff(s: Sides) returns (res: seq<FileDiff>)
    requires s.fst != [] && s.snd != []
    ensures res == Difference(s)
  {
    var iFst := |s.fst| - 1;
    var iSnd := |s.snd| - 1;
    res := [];
    while true
      invariant 0 <= iFst < |s.fst| && 0 <= iSnd < |s.snd|
      invariant Merge(s, iFst, iSnd, res) == Difference(s)
      decreases iFst + iSnd
    {
      var found, fst, snd := Compare(s, iFst, iSnd);
      res := res + found;
      if (fst && iFst == 0) || (snd && iSnd == 0) {
        break;
      }
      iFst := if fst then iFst - 1 else iFst;
      iSnd := if snd then iSnd - 1 else iSnd;
    }
    res := HandleLastDiff(iFst, s.fst, res);
    res := HandleLastDiff(iSnd, s.snd, res);
  }
}

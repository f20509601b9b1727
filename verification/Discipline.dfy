/**
 Why path resolution ends although nothing bounds it: in the workloads the fuzzer makes, every name is new
 when it is introduced and no symlink target mentions a name introduced with or after the symlink
 (diffuzzer/src/abstract_fs/generator.rs and mutator.rs against resolve_node_rec in fs.rs).
 */
module Discipline {
  import opened Wrappers
  import opened Pathname
  import opened Nodes
  import opened Resolution
  import opened Forest
  import opened Operations
  import opened Renaming
  import opened Invariants

  function Introduced(op: Operation): Option<Name> {
    var p := NewPath(op);
    if p.Some? && '/' in p.value then Some(Split(p.value).1) else None
  }

  /** Position, counted from one, of the operation that introduced a name; zero if none did. */
  function Rank(ops: seq<Operation>, n: Name): (r: nat)
    ensures r <= |ops|
  {
    if ops == [] then 0
    else if Introduced(ops[|ops| - 1]) == Some(n) then |ops|
    else Rank(ops[..|ops| - 1], n)
  }

  predicate Mentioned(ops: seq<Operation>, n: Name) {
    exists op :: op in ops && op.MakeSymlink? && n in Segments(op.target)
  }

  /** An operation that introduces no name, or a non-empty one never introduced before and in no symlink target so far. */
  predicate FreshStep(before: seq<Operation>, op: Operation) {
    var n := Introduced(op);
    n.Some? ==> n.value != "" && Rank(before, n.value) == 0 && !Mentioned(before + [op], n.value)
  }

  predicate Disciplined(ops: seq<Operation>) {
    forall j :: 0 <= j < |ops| ==> FreshStep(ops[..j], ops[j])
  }

  lemma DisciplinedSnoc(ops: seq<Operation>, op: Operation)
    ensures Disciplined(ops + [op]) <==> Disciplined(ops) && FreshStep(ops, op)
  {
    var all := ops + [op];
    assert all[..|ops|] == ops && all[|ops|] == op;
    forall j | 0 <= j < |ops|
      ensures all[..j] == ops[..j] && all[j] == ops[j]
    {
    }
    if Disciplined(all) {
      forall j | 0 <= j < |ops|
        ensures FreshStep(ops[..j], ops[j])
      {
        assert FreshStep(all[..j], all[j]);
      }
      assert FreshStep(all[..|ops|], all[|ops|]);
    }
  }

  lemma RankSnoc(ops: seq<Operation>, op: Operation, n: Name)
    ensures Rank(ops + [op], n) == if Introduced(op) == Some(n) then |ops| + 1 else Rank(ops, n)
  {
    assert (ops + [op])[..|ops|] == ops;
  }

  /** Every entry's name was introduced, and a symlink's target only mentions names of lower rank than the entry's. */
  ghost predicate Ranked(ns: Namespace, ops: seq<Operation>) {
    && (forall d: nat, n, node :: HasEntry(ns, d, n, node) ==> Rank(ops, n) > 0)
    && (forall d: nat, n, i: nat :: HasEntry(ns, d, n, Symlink(i)) && i < |ns.links| ==>
          forall g :: g in Segments(ns.links[i]) ==> Rank(ops, g) < Rank(ops, n))
  }

  predicate Logs(ops: seq<Operation>, target: string) {
    exists op :: op in ops && op.MakeSymlink? && op.target == target
  }

  /** All symlink targets ever made are in the recording. */
  ghost predicate TargetsLogged(ns: Namespace, ops: seq<Operation>) {
    forall i :: 0 <= i < |ns.links| ==> Logs(ops, ns.links[i])
  }

  ghost predicate Fit(s: State) {
    Inv(s) && Disciplined(s.recording) && Ranked(s.ns, s.recording) && TargetsLogged(s.ns, s.recording)
  }

  // ----- resolution ends in ranked namespaces

  /** A budget above the ranks of all segments suffices: each followed symlink lowers the highest rank. */
  lemma {:induction false} WalkEndsWithin(ns: Namespace, files: nat, ops: seq<Operation>, fuel: nat, segs: seq<Name>)
    requires |ns.dirs| > 0 && InRange(ns, files) && Ranked(ns, ops)
    requires forall g :: g in segs ==> Rank(ops, g) < fuel
    ensures Walk(ns, fuel, segs) != Stuck
    decreases fuel, |segs|, 0
  {
    if segs != [] {
      var init := segs[..|segs| - 1];
      assert forall g :: g in init ==> g in segs;
      WalkEndsWithin(ns, files, ops, fuel, init);
      if Walk(ns, fuel, init).Ok? {
        WalkEnds(ns, fuel, init);
        if init != [] {
          assert init[|init| - 1] in segs;
          EnterEndsWithin(ns, files, ops, fuel, init[|init| - 1], Walk(ns, fuel, init).value.node);
          EnterInRange(ns, files, fuel, init[|init| - 1], Walk(ns, fuel, init).value.node);
        }
      }
    }
  }

  lemma {:induction false} EnterEndsWithin(ns: Namespace, files: nat, ops: seq<Operation>, fuel: nat, n: Name, node: Node)
    requires |ns.dirs| > 0 && InRange(ns, files) && Ranked(ns, ops)
    requires Named(ns, n, node) && Rank(ops, n) < fuel
    ensures Enter(ns, fuel, node) != Stuck
    decreases fuel, 0, 0
  {
    if node.Symlink? {
      var i := node.link;
      LinkRanks(ns, files, ops, n, i);
      assert Follow(ns, fuel - 1, ns.links[i], true, {}) != Stuck by {
        FollowEndsWithin(ns, files, ops, fuel - 1, ns.links[i], {});
      }
      EnterLinkReturns(ns, fuel, i);
    }
  }

  lemma EnterLinkReturns(ns: Namespace, fuel: nat, i: nat)
    requires fuel > 0 && i < |ns.links| && Follow(ns, fuel - 1, ns.links[i], true, {}) != Stuck
    ensures Enter(ns, fuel, Symlink(i)) != Stuck
  {
  }

  lemma EnterInRange(ns: Namespace, files: nat, fuel: nat, n: Name, node: Node)
    requires |ns.dirs| > 0 && InRange(ns, files) && Named(ns, n, node)
    ensures Enter(ns, fuel, node).Ok? ==> Enter(ns, fuel, node).value.1 < |ns.dirs|
  {
    if Enter(ns, fuel, node).Ok? {
      if node.Symlink? {
        FollowEnds(ns, fuel - 1, ns.links[node.link], true, {});
      } else {
        var d: nat :| HasEntry(ns, d, n, Dir(node.dir));
      }
    }
  }

  /** A symlink under a name: its target mentions names of lower rank only. */
  lemma LinkRanks(ns: Namespace, files: nat, ops: seq<Operation>, n: Name, i: nat)
    requires InRange(ns, files) && Ranked(ns, ops) && Named(ns, n, Symlink(i))
    ensures i < |ns.links| && Rank(ops, n) > 0
    ensures forall g :: g in Segments(ns.links[i]) ==> Rank(ops, g) < Rank(ops, n)
  {
    var d: nat :| HasEntry(ns, d, n, Symlink(i));
  }

  lemma {:induction false} FollowEndsWithin(ns: Namespace, files: nat, ops: seq<Operation>, fuel: nat, path: string, visited: set<nat>)
    requires |ns.dirs| > 0 && InRange(ns, files) && Ranked(ns, ops)
    requires forall g :: g in Segments(path) ==> Rank(ops, g) < fuel
    ensures Follow(ns, fuel, path, true, visited) != Stuck
    ensures Follow(ns, fuel, path, false, visited) != Stuck
    decreases fuel, |Segments(path)| + 1, 1
  {
    var segs := Segments(path);
    WalkEndsWithin(ns, files, ops, fuel, segs);
    if Walk(ns, fuel, segs).Ok? {
      var node := Walk(ns, fuel, segs).value.node;
      WalkEnds(ns, fuel, segs);
      if node.Symlink? {
        var n := segs[|segs| - 1];
        var i := node.link;
        assert n in segs;
        LinkRanks(ns, files, ops, n, i);
        assert Follow(ns, fuel - 1, ns.links[i], true, visited + {i}) != Stuck by {
          FollowEndsWithin(ns, files, ops, fuel - 1, ns.links[i], visited + {i});
        }
      }
    }
  }

  /** Every path resolves to a result or an error, within a budget of one more than the number of operations. */
  lemma ResolutionEnds(ns: Namespace, files: nat, ops: seq<Operation>, path: string, follow: bool)
    requires |ns.dirs| > 0 && InRange(ns, files) && Ranked(ns, ops)
    ensures Follow(ns, |ops| + 1, path, follow, {}) != Stuck
    ensures Resolve(ns, path, follow) == Follow(ns, |ops| + 1, path, follow, {})
  {
    FollowEndsWithin(ns, files, ops, |ops| + 1, path, {});
    ResolveIs(ns, |ops| + 1, path, follow);
  }

  /** The paths that an operation splits, which panics without a slash. */
  predicate Slashed(op: Operation) {
    && (NewPath(op).Some? ==> '/' in NewPath(op).value)
    && (op.Remove? ==> '/' in op.path)
    && (op.Hardlink? ==> '/' in op.oldPath)
  }

  /** What a path can lead to in a fit state. */
  lemma PathReturns(s: State, path: string)
    requires Fit(s)
    ensures Resolve(s.ns, path, true) != Stuck && Resolve(s.ns, path, false) != Stuck
    ensures ResolveDir(s.ns, path).Ok? ==> ResolveDir(s.ns, path).value.1 < |s.ns.dirs|
    ensures ResolveFile(s.ns, path).Ok? ==> ResolveFile(s.ns, path).value < |s.files|
  {
    ResolutionEnds(s.ns, |s.files|, s.recording, path, true);
    ResolutionEnds(s.ns, |s.files|, s.recording, path, false);
    ResolveInRange(s.ns, |s.files|, path);
  }

  lemma ParentReturns(s: State, path: string)
    requires Fit(s) && '/' in path
    ensures ParentOf(s.ns, path) != Stuck && VacantParent(s.ns, path) != Stuck
  {
    PathReturns(s, Split(path).0);
  }

  lemma RenameReturns(s: State, oldPath: string, newPath: string)
    requires Fit(s) && '/' in newPath
    ensures !ExecRename(s, oldPath, newPath).status.NoReturn?
  {
    PathReturns(s, newPath);
    PathReturns(s, oldPath);
    PathReturns(s, Split(newPath).0);
    if RenameChecks(s.ns, oldPath, newPath).Ok? {
      RenameMoves(s, oldPath, newPath);
    }
  }

  /** In a fit state every call returns. */
  lemma CallReturns(s: State, op: Operation)
    requires Fit(s) && Slashed(op)
    ensures !Exec(s, op).status.NoReturn?
  {
    match op
    case MkDir(path, _) => ParentReturns(s, path);
    case Create(path, _) => ParentReturns(s, path);
    case MakeSymlink(_, linkPath) => ParentReturns(s, linkPath);
    case Remove(path) => ParentReturns(s, path);
    case Hardlink(oldPath, newPath) =>
      ParentReturns(s, oldPath);
      PathReturns(s, oldPath);
      ParentReturns(s, newPath);
    case Rename(oldPath, newPath) => RenameReturns(s, oldPath, newPath);
    case Open(path, _) => PathReturns(s, path);
    case _ => DataReturns(s, op);
  }

  lemma DataReturns(s: State, op: Operation)
    requires Inv(s) && Used(op).Some?
    ensures !Exec(s, op).status.NoReturn?
  {
    var des := Used(op).value;
    assert FileOf(s, des) != Stuck;
    if FileOf(s, des).Ok? { DataNeverFails(s, des); }
  }

  // ----- the discipline keeps namespaces ranked

  /** New entries under a new name only, and the targets of all symlinks logged. */
  lemma RankedStep(ns: Namespace, files: nat, ns': Namespace, ops: seq<Operation>, op: Operation)
    requires InRange(ns, files) && Ranked(ns, ops) && FreshStep(ops, op)
    requires TargetsLogged(ns', ops + [op])
    requires |ns.links| <= |ns'.links| && ns'.links[..|ns.links|] == ns.links
    requires forall d: nat, n, node :: HasEntry(ns', d, n, node) ==> HasEntry(ns, d, n, node) || Introduced(op) == Some(n)
    ensures Ranked(ns', ops + [op])
  {
    var all := ops + [op];
    forall d: nat, n, node | HasEntry(ns', d, n, node)
      ensures Rank(all, n) > 0
    {
      RankSnoc(ops, op, n);
    }
    forall d: nat, n, i: nat, g | HasEntry(ns', d, n, Symlink(i)) && i < |ns'.links| && g in Segments(ns'.links[i])
      ensures Rank(all, g) < Rank(all, n)
    {
      RankSnoc(ops, op, n);
      RankSnoc(ops, op, g);
      TargetIsOld(ns', ops, op, i, g);
      if Introduced(op) != Some(n) {
        assert HasEntry(ns, d, n, Symlink(i));
        assert ns'.links[i] == ns'.links[..|ns.links|][i] == ns.links[i];
      }
    }
  }

  lemma TargetIsOld(ns: Namespace, ops: seq<Operation>, op: Operation, i: nat, g: Name)
    requires TargetsLogged(ns, ops + [op]) && FreshStep(ops, op)
    requires i < |ns.links| && g in Segments(ns.links[i])
    ensures Introduced(op) != Some(g)
  {
    var m :| m in ops + [op] && m.MakeSymlink? && m.target == ns.links[i];
    assert Mentioned(ops + [op], g);
  }

  lemma RenameEntriesFrom(s: State, oldPath: string, newPath: string, d: nat, n: Name, node: Node)
    requires |s.ns.dirs| > 0 && RootFree(s.ns) && OneParent(s.ns) && ExecRename(s, oldPath, newPath).status.Done?
    requires HasEntry(ExecRename(s, oldPath, newPath).state.ns, d, n, node)
    ensures HasEntry(s.ns, d, n, node) || ('/' in newPath && Split(newPath).1 == n)
  {
    RenameAtomic(s, oldPath, newPath);
    RenameMoves(s, oldPath, newPath);
    var (p, moved) := RenameChecks(s.ns, oldPath, newPath).value;
    var q := ParentOf(s.ns, oldPath).value;
    assert HasEntry(Delete(Insert(s.ns, p, Split(newPath).1, moved), q, Split(oldPath).1), d, n, node);
  }

  /** What a successful call adds to the entries is under the name it introduces. */
  lemma EntriesFrom(s: State, op: Operation, d: nat, n: Name, node: Node)
    requires |s.ns.dirs| > 0 && RootFree(s.ns) && OneParent(s.ns)
    requires Exec(s, op).status.Done? && HasEntry(Exec(s, op).state.ns, d, n, node)
    ensures HasEntry(s.ns, d, n, node) || Introduced(op) == Some(n)
  {
    match op
    case MkDir(path, mode) => MkDirEntriesFrom(s, path, mode, d, n, node);
    case Create(path, mode) => CreateEntriesFrom(s, path, mode, d, n, node);
    case Remove(path) => RemoveEntriesFrom(s, path, d, n, node);
    case MakeSymlink(target, linkPath) => SymlinkEntriesFrom(s, target, linkPath, d, n, node);
    case Hardlink(oldPath, newPath) => HardlinkEntriesFrom(s, oldPath, newPath, d, n, node);
    case Rename(oldPath, newPath) => RenameEntriesFrom(s, oldPath, newPath, d, n, node);
    case _ =>
  }

  lemma MkDirEntriesFrom(s: State, path: string, mode: Mode, d: nat, n: Name, node: Node)
    requires ExecMkDir(s, path, mode).status.Done? && HasEntry(ExecMkDir(s, path, mode).state.ns, d, n, node)
    ensures HasEntry(s.ns, d, n, node) || Split(path).1 == n
  {
    InsertEntriesFrom(s.ns, s.ns.(dirs := s.ns.dirs + [map[]]), path, Dir(|s.ns.dirs|), d, n, node);
  }

  lemma CreateEntriesFrom(s: State, path: string, mode: Mode, d: nat, n: Name, node: Node)
    requires ExecCreate(s, path, mode).status.Done? && HasEntry(ExecCreate(s, path, mode).state.ns, d, n, node)
    ensures HasEntry(s.ns, d, n, node) || Split(path).1 == n
  {
    InsertEntriesFrom(s.ns, s.ns, path, File(|s.files|), d, n, node);
  }

  lemma RemoveEntriesFrom(s: State, path: string, d: nat, n: Name, node: Node)
    requires ExecRemove(s, path).status.Done? && HasEntry(ExecRemove(s, path).state.ns, d, n, node)
    ensures HasEntry(s.ns, d, n, node)
  {
  }

  lemma SymlinkEntriesFrom(s: State, target: string, linkPath: string, d: nat, n: Name, node: Node)
    requires ExecSymlink(s, target, linkPath).status.Done?
    requires HasEntry(ExecSymlink(s, target, linkPath).state.ns, d, n, node)
    ensures HasEntry(s.ns, d, n, node) || Split(linkPath).1 == n
  {
    InsertEntriesFrom(s.ns, s.ns.(links := s.ns.links + [target]), linkPath, Symlink(|s.ns.links|), d, n, node);
  }

  lemma HardlinkEntriesFrom(s: State, oldPath: string, newPath: string, d: nat, n: Name, node: Node)
    requires ExecHardlink(s, oldPath, newPath).status.Done?
    requires HasEntry(ExecHardlink(s, oldPath, newPath).state.ns, d, n, node)
    ensures HasEntry(s.ns, d, n, node) || Split(newPath).1 == n
  {
    InsertEntriesFrom(s.ns, s.ns, newPath, File(ResolveFile(s.ns, oldPath).value), d, n, node);
  }

  lemma InsertEntriesFrom(ns: Namespace, grown: Namespace, path: string, x: Node, d: nat, n: Name, node: Node)
    requires VacantParent(ns, path).Ok? && (grown.dirs == ns.dirs || grown.dirs == ns.dirs + [map[]])
    requires HasEntry(Insert(grown, VacantParent(ns, path).value, Split(path).1, x), d, n, node)
    ensures HasEntry(ns, d, n, node) || Split(path).1 == n
  {
  }

  lemma LinksFrom(s: State, op: Operation)
    requires Exec(s, op).status.Done?
    ensures Exec(s, op).state.ns.links == s.ns.links + if op.MakeSymlink? then [op.target] else []
  {
  }

  lemma TargetsStep(s: State, op: Operation)
    requires Exec(s, op).status.Done? && TargetsLogged(s.ns, s.recording)
    ensures TargetsLogged(Exec(s, op).state.ns, s.recording + [op])
  {
    LinksFrom(s, op);
    var links, all := Exec(s, op).state.ns.links, s.recording + [op];
    forall i | 0 <= i < |links|
      ensures Logs(all, links[i])
    {
      if i < |s.ns.links| {
        assert links[i] == s.ns.links[i];
        var m :| m in s.recording && m.MakeSymlink? && m.target == s.ns.links[i];
        assert m in all;
      } else {
        assert op in all;
      }
    }
  }

  /** The number in an Open plays no part in names. */
  lemma LoggedNames(s: State, op: Operation)
    ensures Introduced(Logged(s, op)) == Introduced(op)
    ensures FreshStep(s.recording, Logged(s, op)) <==> FreshStep(s.recording, op)
  {
  }

  /** A successful fresh step keeps a fit state fit. */
  lemma FitStep(s: State, op: Operation)
    requires Fit(s) && FreshStep(s.recording, op) && Exec(s, op).status.Done?
    ensures Fit(Exec(s, op).state)
  {
    var t := Exec(s, op).state;
    var logged := Logged(s, op);
    LoggedSame(s, op);
    LoggedNames(s, op);
    ExecInv(s, op);
    ExecRecords(s, op);
    DisciplinedSnoc(s.recording, logged);
    TargetsStep(s, logged);
    LinksFrom(s, op);
    forall d: nat, n, node | HasEntry(t.ns, d, n, node)
      ensures HasEntry(s.ns, d, n, node) || Introduced(logged) == Some(n)
    {
      EntriesFrom(s, op, d, n, node);
    }
    RankedStep(s.ns, |s.files|, t.ns, s.recording, logged);
  }

  lemma FreshFit()
    ensures Fit(FRESH)
  {
    FreshInv();
  }

  lemma DisciplinedPrefix(a: seq<Operation>, b: seq<Operation>)
    requires Disciplined(a + b)
    ensures Disciplined(a)
  {
    forall j | 0 <= j < |a|
      ensures FreshStep(a[..j], a[j])
    {
      assert (a + b)[..j] == a[..j] && (a + b)[j] == a[j];
    }
  }

  /** Introduced names are proper file names. */
  lemma {:induction false} IntroducedProper(ops: seq<Operation>, n: Name)
    requires Disciplined(ops) && Rank(ops, n) > 0
    ensures Proper(n)
    decreases |ops|
  {
    var init, op := ops[..|ops| - 1], ops[|ops| - 1];
    assert ops == init + [op];
    DisciplinedSnoc(init, op);
    RankSnoc(init, op, n);
    if Introduced(op) != Some(n) {
      IntroducedProper(init, n);
    }
  }

  // ----- whole replays

  /** Replaying a disciplined workload always returns, and ends in a fit state if it succeeds. */
  lemma {:induction false} ReplayReturns(s: State, ops: seq<Operation>)
    requires Fit(s) && Follows(s.recording, ops) && forall op :: op in ops ==> Slashed(op)
    ensures !Replay(s, ops).status.NoReturn?
    ensures Replay(s, ops).status.Done? ==> Fit(Replay(s, ops).state)
    decreases |ops|
  {
    if ops != [] {
      var op := ops[0];
      CallReturns(s, op);
      FollowsHead(s.recording, ops);
      if Exec(s, op).status.Done? {
        FitStep(s, op);
        ExecRecords(s, op);
        FollowsTail(s.recording, Logged(s, op), ops);
        ReplayReturns(Exec(s, op).state, ops[1..]);
      }
    }
  }

  /** The operations would keep the discipline after these ones. */
  predicate Follows(before: seq<Operation>, ops: seq<Operation>) {
    forall j :: 0 <= j < |ops| ==> FreshStep(before + ops[..j], ops[j])
  }

  lemma FollowsHead(before: seq<Operation>, ops: seq<Operation>)
    requires Follows(before, ops) && ops != []
    ensures FreshStep(before, ops[0])
  {
    assert before + ops[..0] == before;
  }

  /** Two workloads that differ at most in the descriptor numbers of their Opens. */
  predicate SameNames(a: seq<Operation>, b: seq<Operation>) {
    |a| == |b| && forall j :: 0 <= j < |a| ==> a[j] == b[j] || (a[j].Open? && b[j].Open? && a[j].path == b[j].path)
  }

  lemma {:induction false} SameRank(a: seq<Operation>, b: seq<Operation>, n: Name)
    requires SameNames(a, b)
    ensures Rank(a, n) == Rank(b, n)
    decreases |a|
  {
    if a != [] {
      SameRank(a[..|a| - 1], b[..|b| - 1], n);
    }
  }

  lemma SameMentioned(a: seq<Operation>, b: seq<Operation>, n: Name)
    requires SameNames(a, b)
    ensures Mentioned(a, n) <==> Mentioned(b, n)
  {
    if Mentioned(a, n) {
      var j :| 0 <= j < |a| && a[j].MakeSymlink? && n in Segments(a[j].target);
      assert b[j] in b;
    }
    if Mentioned(b, n) {
      var j :| 0 <= j < |b| && b[j].MakeSymlink? && n in Segments(b[j].target);
      assert a[j] in a;
    }
  }

  lemma SameFresh(a: seq<Operation>, b: seq<Operation>, op: Operation)
    requires SameNames(a, b)
    ensures FreshStep(a, op) <==> FreshStep(b, op)
  {
    var n := Introduced(op);
    if n.Some? {
      SameRank(a, b, n.value);
      SameMentioned(a + [op], b + [op], n.value);
    }
  }

  lemma SameHead(before: seq<Operation>, first: Operation, logged: Operation, rest: seq<Operation>)
    requires SameNames([logged], [first])
    ensures SameNames(before + ([first] + rest), before + [logged] + rest)
  {
    assert [logged][0] == logged && [first][0] == first;
  }

  lemma FollowsTail(before: seq<Operation>, logged: Operation, ops: seq<Operation>)
    requires Follows(before, ops) && ops != [] && SameNames([logged], [ops[0]])
    ensures Follows(before + [logged], ops[1..])
  {
    var rest := ops[1..];
    forall j | 0 <= j < |rest|
      ensures FreshStep(before + [logged] + rest[..j], rest[j])
    {
      assert FreshStep(before + ops[..j + 1], ops[j + 1]);
      assert ops[..j + 1] == [ops[0]] + rest[..j];
      SameHead(before, ops[0], logged, rest[..j]);
      SameFresh(before + ops[..j + 1], before + [logged] + rest[..j], rest[j]);
    }
  }

  lemma FollowsDisciplined(a: seq<Operation>, b: seq<Operation>)
    ensures Disciplined(a + b) <==> Disciplined(a) && Follows(a, b)
  {
    var all := a + b;
    forall j | 0 <= j < |a|
      ensures all[..j] == a[..j] && all[j] == a[j]
    {
    }
    forall j | 0 <= j < |b|
      ensures all[..|a| + j] == a + b[..j] && all[|a| + j] == b[j]
    {
    }
    if Disciplined(all) {
      DisciplinedPrefix(a, b);
      forall j | 0 <= j < |b|
        ensures FreshStep(a + b[..j], b[j])
      {
        assert FreshStep(all[..|a| + j], all[|a| + j]);
      }
    }
    if Disciplined(a) && Follows(a, b) {
      forall j | 0 <= j < |all|
        ensures FreshStep(all[..j], all[j])
      {
        if j < |a| {
          assert FreshStep(a[..j], a[j]);
        } else {
          assert FreshStep(a + b[..j - |a|], b[j - |a|]);
        }
      }
    }
  }
}

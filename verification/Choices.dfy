/**
 Every choice the generator can make among alive nodes succeeds (diffuzzer/src/abstract_fs/generator.rs,
 append_one): the facts behind its unwraps.
 */
module Choices {
  import opened Wrappers
  import opened Pathname
  import opened Nodes
  import opened Resolution
  import opened Forest
  import opened Operations
  import opened Renaming
  import opened Invariants
  import opened Discipline
  import opened Trails
  import opened Rounds

  /** A name that nothing recorded introduces or mentions. */
  ghost predicate FreshName(ops: seq<Operation>, n: Name) {
    Proper(n) && Rank(ops, n) == 0 && !Mentioned(ops, n)
  }

  /** An operation that fits in: it introduces no used name, and a symlink only points at names introduced before. */
  ghost predicate FitsIn(ops: seq<Operation>, op: Operation, used: set<string>) {
    && FreshStep(ops, op)
    && (Introduced(op).Some? ==> Introduced(op).value !in used)
    && (op.MakeSymlink? ==> forall g :: g in Segments(op.target) ==> Rank(ops, g) > 0)
  }

  /** One recorded operation further. */
  ghost predicate Step(s: State, t: State, used: set<string>) {
    exists op :: FitsIn(s.recording, op, used) && Exec(s, op) == Effect(t, Done)
  }

  /** The recording rebuilds the state. */
  ghost predicate Reproduced(s: State) {
    Replay(FRESH, s.recording) == Effect(s, Done)
  }

  lemma StepKeeps(s: State, t: State, used: set<string>)
    requires Fit(s) && Step(s, t, used)
    ensures Fit(t) && |t.recording| == |s.recording| + 1
    ensures Reproduced(s) ==> Reproduced(t)
  {
    var op :| FitsIn(s.recording, op, used) && Exec(s, op) == Effect(t, Done);
    FitStep(s, op);
    ExecRecords(s, op);
    LoggedSame(s, op);
    ReplaySnoc(FRESH, s.recording, Logged(s, op));
  }

  /** In a fit state the search for alive nodes is safe. */
  lemma FitSearchable(s: State)
    requires Fit(s)
    ensures Searchable(s.ns)
  {
    forall d: nat, n | d < |s.ns.dirs| && n in s.ns.dirs[d]
      ensures Proper(n)
    {
      assert HasEntry(s.ns, d, n, s.ns.dirs[d][n]);
      IntroducedProper(s.recording, n);
    }
    forall i | 0 <= i < |s.ns.links|
      ensures Resolve(s.ns, s.ns.links[i], true) != Stuck
    {
      PathReturns(s, s.ns.links[i]);
    }
    ForestSearchable(s.ns, |s.files|);
  }

  /** Every name on an existing path was introduced. */
  lemma {:induction false} TrailRanked(s: State, p: string)
    requires Fit(s) && Canonical(p) && At(s.ns, p).Some?
    ensures forall g :: g in Segments(p) ==> Rank(s.recording, g) > 0
    decreases |p|
  {
    if IsRoot(p) {
      SegmentsOfRoot();
    } else {
      BelowRoot(p);
      AtSplit(s.ns, p);
      ExistingRanked(s, p);
    }
  }

  lemma {:induction false} ExistingRanked(s: State, x: string)
    requires Fit(s) && Exists(s.ns, x)
    ensures forall g :: g in Segments(x) ==> Rank(s.recording, g) > 0
    decreases |x|, 0
  {
    BelowRoot(x);
    var (q, n) := Split(x);
    assert |q| < |x|;
    TrailRanked(s, q);
    assert HasEntry(s.ns, Above(s.ns, x).value.dir, n, NodeAt(s.ns, x));
  }

  /** A fresh name can be entered in any alive directory. */
  lemma VacantHere(s: State, p: string, d: nat, n: Name)
    requires Fit(s) && FreshName(s.recording, n)
    requires Canonical(p) && ResolveDir(s.ns, p).Ok? && ResolveDir(s.ns, p).value.1 == d
    ensures '/' in Join(p, n) && Split(Join(p, n)) == (p, n)
    ensures VacantParent(s.ns, Join(p, n)) == Ok(d)
  {
    JoinSplit(p, n);
    PathReturns(s, p);
    if n in s.ns.dirs[d] {
      assert HasEntry(s.ns, d, n, s.ns.dirs[d][n]);
    }
  }

  /** Introducing a fresh name keeps the discipline, also for a symlink to something that exists. */
  lemma FreshHere(ops: seq<Operation>, op: Operation, n: Name)
    requires FreshName(ops, n) && Introduced(op) == Some(n)
    requires op.MakeSymlink? ==> n !in Segments(op.target)
    ensures FreshStep(ops, op)
  {
    forall m | m in ops + [op] && m.MakeSymlink?
      ensures n !in Segments(m.target)
    {
      assert m in ops || m == op;
    }
  }

  lemma FreshOperation(ops: seq<Operation>, op: Operation, p: string, n: Name)
    requires FreshName(ops, n) && Canonical(p) && NewPath(op) == Some(Join(p, n))
    requires op.MakeSymlink? ==> n !in Segments(op.target)
    ensures FreshStep(ops, op) && Introduced(op) == Some(n)
  {
    JoinSplit(p, n);
    FreshHere(ops, op, n);
  }

  /** Directories, files and symlinks can be made wherever there is room. */
  lemma MadeWhereVacant(s: State, op: Operation)
    requires op.MkDir? || op.Create? || op.MakeSymlink?
    requires VacantParent(s.ns, NewPath(op).value).Ok?
    ensures Exec(s, op).status.Done?
  {
  }

  lemma LinkedWhereVacant(s: State, x: string, y: string)
    requires ParentOf(s.ns, x).Ok? && ResolveFile(s.ns, x).Ok? && VacantParent(s.ns, y).Ok?
    requires var d := ParentOf(s.ns, x).value; Split(x).1 in s.ns.dirs[d] && !s.ns.dirs[d][Split(x).1].Symlink?
    ensures Exec(s, Hardlink(x, y)).status.Done?
  {
  }

  lemma NewNodeSucceeds(s: State, p: string, d: nat, n: Name, op: Operation)
    requires Fit(s) && FreshName(s.recording, n)
    requires Canonical(p) && ResolveDir(s.ns, p).Ok? && ResolveDir(s.ns, p).value.1 == d
    requires op.MkDir? || op.Create? || (op.MakeSymlink? && n !in Segments(op.target))
    requires NewPath(op) == Some(Join(p, n))
    ensures Exec(s, op).status.Done? && FreshStep(s.recording, op)
  {
    VacantHere(s, p, d, n);
    MadeWhereVacant(s, op);
    FreshOperation(s.recording, op, p, n);
  }

  lemma HardlinkSucceeds(s: State, x: string, f: nat, p: string, d: nat, n: Name)
    requires Fit(s) && FreshName(s.recording, n)
    requires Canonical(p) && ResolveDir(s.ns, p).Ok? && ResolveDir(s.ns, p).value.1 == d
    requires Exists(s.ns, x) && NodeAt(s.ns, x) == File(f)
    ensures Exec(s, Hardlink(x, Join(p, n))).status.Done? && FreshStep(s.recording, Hardlink(x, Join(p, n)))
  {
    ParentIs(s, x);
    FileIs(s, x, f);
    VacantHere(s, p, d, n);
    LinkedWhereVacant(s, x, Join(p, n));
    FreshOperation(s.recording, Hardlink(x, Join(p, n)), p, n);
  }

  lemma FileIs(s: State, x: string, f: nat)
    requires Fit(s) && Exists(s.ns, x) && NodeAt(s.ns, x) == File(f)
    ensures ResolveFile(s.ns, x) == Ok(f)
  {
    FitSearchable(s);
    ExistsResolves(s.ns, x);
    PlainResolves(s.ns, x);
  }

  /** The parent of an existing path is where its trail says. */
  lemma ParentIs(s: State, x: string)
    requires Fit(s) && Exists(s.ns, x)
    ensures ParentOf(s.ns, x) == Ok(Above(s.ns, x).value.dir)
  {
    FitSearchable(s);
    BelowRoot(x);
    TrailIsResolution(s.ns, Split(x).0);
  }

  lemma RemoveSucceeds(s: State, x: string)
    requires Fit(s) && Exists(s.ns, x)
    ensures Exec(s, Remove(x)).status.Done? && FreshStep(s.recording, Remove(x))
  {
    ParentIs(s, x);
  }

  /** A fresh name leads nowhere yet. */
  lemma FreshLeadsNowhere(s: State, p: string, d: nat, n: Name)
    requires Fit(s) && FreshName(s.recording, n)
    requires Canonical(p) && ResolveDir(s.ns, p).Ok? && ResolveDir(s.ns, p).value.1 == d
    ensures ResolveDir(s.ns, Join(p, n)).Err?
  {
    VacantHere(s, p, d, n);
    JoinSplit(p, n);
    JoinResolves(s.ns, p, Join(p, n), n);
    FollowedIsFound(s.ns, Join(p, n));
    PathReturns(s, Join(p, n));
  }

  lemma RootPassesNothing(ns: Namespace, p: string)
    requires IsRoot(p)
    ensures ResolveDir(ns, p) == Ok(([], ROOT))
  {
    SegmentsOfRoot();
    ResolveIs(ns, 0, p, true);
  }

  /** The checks of a rename to a path that leads nowhere can only fail for want of order between directories. */
  lemma ChecksToNowhere(ns: Namespace, x: string, y: string)
    requires ResolveDir(ns, y).Err? && Resolve(ns, x, false).Ok? && '/' in y
    requires ResolveDir(ns, Split(y).0).Ok? && ResolveDir(ns, Split(y).0).value.1 < |ns.dirs|
    ensures var c := RenameChecks(ns, x, y);
            var (passed, parent) := ResolveDir(ns, Split(y).0).value;
            && (c.Ok? || c == Err(RenameToSubdirectoryError))
            && (passed == [] && Resolve(ns, x, false).value.node != Dir(parent) ==> c.Ok?)
  {
  }

  lemma ExistingNotRoot(s: State, x: string)
    requires Fit(s) && Exists(s.ns, x)
    ensures Resolve(s.ns, x, false).Ok? && Resolve(s.ns, x, false).value.node != Dir(ROOT)
  {
    FitSearchable(s);
    ExistsResolves(s.ns, x);
    assert HasEntry(s.ns, Above(s.ns, x).value.dir, Split(x).1, NodeAt(s.ns, x));
  }

  lemma RenameChecked(s: State, x: string, p: string, d: nat, n: Name)
    requires Fit(s) && FreshName(s.recording, n) && Exists(s.ns, x)
    requires Canonical(p) && ResolveDir(s.ns, p).Ok? && ResolveDir(s.ns, p).value.1 == d
    ensures var c := RenameChecks(s.ns, x, Join(p, n));
            (c.Ok? || c == Err(RenameToSubdirectoryError)) && (IsRoot(p) ==> c.Ok?)
  {
    FreshLeadsNowhere(s, p, d, n);
    JoinSplit(p, n);
    PathReturns(s, p);
    ExistingNotRoot(s, x);
    ChecksToNowhere(s.ns, x, Join(p, n));
    if IsRoot(p) {
      RootPassesNothing(s.ns, p);
    }
  }

  /** Past its checks, a rename of a canonical path succeeds. */
  lemma CheckedRename(s: State, x: string, y: string)
    requires |s.ns.dirs| > 0 && RootFree(s.ns) && OneParent(s.ns) && Canonical(x) && !IsRoot(x)
    requires RenameChecks(s.ns, x, y).Ok?
    ensures ExecRename(s, x, y).status.Done?
  {
    assert !DoubledBeforeName(x) by { SplitParentValid(x); }
    RenameMoves(s, x, y);
  }

  lemma RefusedRename(s: State, x: string, y: string)
    requires RenameChecks(s.ns, x, y) == Err(RenameToSubdirectoryError)
    ensures ExecRename(s, x, y) == Effect(s, Failed(RenameToSubdirectoryError))
  {
  }

  lemma RenameOutcome(s: State, x: string, y: string)
    requires |s.ns.dirs| > 0 && RootFree(s.ns) && OneParent(s.ns) && Canonical(x) && !IsRoot(x)
    ensures RenameChecks(s.ns, x, y).Ok? ==> Exec(s, Rename(x, y)).status.Done?
    ensures RenameChecks(s.ns, x, y) == Err(RenameToSubdirectoryError)
            ==> Exec(s, Rename(x, y)) == Effect(s, Failed(RenameToSubdirectoryError))
  {
    assert Exec(s, Rename(x, y)) == ExecRename(s, x, y);
    if RenameChecks(s.ns, x, y).Ok? {
      CheckedRename(s, x, y);
    } else if RenameChecks(s.ns, x, y) == Err(RenameToSubdirectoryError) {
      RefusedRename(s, x, y);
    }
  }

  /**
   Renaming anything alive to a fresh name in any alive directory succeeds, or is refused because the
   directory lies below what is renamed; for the root directory it is never refused.
   */
  lemma RenameSucceeds(s: State, x: string, p: string, d: nat, n: Name)
    requires Fit(s) && FreshName(s.recording, n) && Exists(s.ns, x)
    requires Canonical(p) && ResolveDir(s.ns, p).Ok? && ResolveDir(s.ns, p).value.1 == d
    ensures var op := Rename(x, Join(p, n));
            && FreshStep(s.recording, op)
            && (Exec(s, op).status.Done? || Exec(s, op) == Effect(s, Failed(RenameToSubdirectoryError)))
            && (IsRoot(p) ==> Exec(s, op).status.Done?)
  {
    RenameChecked(s, x, p, d, n);
    RenameOutcome(s, x, Join(p, n));
    FreshOperation(s.recording, Rename(x, Join(p, n)), p, n);
  }

  lemma OpenSucceeds(s: State, x: string, f: nat)
    requires ResolveFile(s.ns, x) == Ok(f) && f < |s.files| && s.files[f].descriptor.None?
    ensures Exec(s, Open(x, |s.descriptors|)).status.Done? && FreshStep(s.recording, Open(x, |s.descriptors|))
  {
  }

  /** A file's open descriptor can be used. */
  lemma UseSucceeds(s: State, f: nat, op: Operation)
    requires Fit(s) && f < |s.files| && s.files[f].descriptor.Some? && Used(op) == s.files[f].descriptor
    ensures Exec(s, op).status.Done? && FreshStep(s.recording, op)
  {
    assert FileOf(s, Used(op).value) == Ok(f);
    DataNeverFails(s, Used(op).value);
  }
}

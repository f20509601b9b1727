/**
 What every call keeps, from a new filesystem on: the forest, indices in range, tight file contents,
 descriptor offsets within their files, and the life cycle of descriptors in the recording.
 */
module Invariants {
  import opened Wrappers
  import opened Pathname
  import opened Nodes
  import opened Resolution
  import opened Forest
  import opened Contents
  import opened Operations
  import opened Renaming

  ghost predicate InRange(ns: Namespace, files: nat) {
    && (forall d: nat, n, c: nat :: HasEntry(ns, d, n, Dir(c)) ==> c < |ns.dirs|)
    && (forall d: nat, n, f: nat :: HasEntry(ns, d, n, File(f)) ==> f < files)
    && (forall d: nat, n, i: nat :: HasEntry(ns, d, n, Symlink(i)) ==> i < |ns.links|)
  }

  ghost predicate DataOk(files: seq<FileRecord>, descriptors: seq<Descriptor>) {
    && (forall f :: 0 <= f < |files| ==> Tight(files[f].content))
    && (forall k :: 0 <= k < |descriptors| ==>
          descriptors[k].file < |files| && descriptors[k].offset <= TotalSize(files[descriptors[k].file].content))
  }

  // ----- descriptors in a recording

  /** How many descriptors a recording opens. */
  function Opens(ops: seq<Operation>): nat {
    if ops == [] then 0 else Opens(ops[..|ops| - 1]) + if ops[|ops| - 1].Open? then 1 else 0
  }

  /** The descriptor an operation works on. */
  function Used(op: Operation): Option<nat> {
    match op
    case Close(des) => Some(des)
    case Read(des, _) => Some(des)
    case Write(des, _, _) => Some(des)
    case FSync(des) => Some(des)
    case _ => None
  }

  /** What may come next: an Open takes the next number, any other use is of a number opened and not closed. */
  predicate InTurn(before: seq<Operation>, op: Operation) {
    && (op.Open? ==> op.des == Opens(before))
    && (Used(op).Some? ==> Used(op).value < Opens(before) && Close(Used(op).value) !in before)
  }

  predicate LifeCycle(ops: seq<Operation>) {
    forall j :: 0 <= j < |ops| ==> InTurn(ops[..j], ops[j])
  }

  /** A descriptor is the open one of its file, and of no other, exactly until the recording closes it. */
  ghost predicate DescOk(files: seq<FileRecord>, descriptors: seq<Descriptor>, recording: seq<Operation>) {
    && |descriptors| == Opens(recording)
    && LifeCycle(recording)
    && PointBack(files, descriptors)
    && OpenUntilClosed(files, descriptors, recording)
  }

  predicate PointBack(files: seq<FileRecord>, descriptors: seq<Descriptor>) {
    forall f :: 0 <= f < |files| && files[f].descriptor.Some? ==>
      files[f].descriptor.value < |descriptors| && descriptors[files[f].descriptor.value].file == f
  }

  ghost predicate OpenUntilClosed(files: seq<FileRecord>, descriptors: seq<Descriptor>, recording: seq<Operation>) {
    forall k: nat :: k < |descriptors| ==>
      descriptors[k].file < |files| && (files[descriptors[k].file].descriptor == Some(k) <==> Close(k) !in recording)
  }

  ghost predicate Inv(s: State) {
    && IsForest(s.ns)
    && InRange(s.ns, |s.files|)
    && DataOk(s.files, s.descriptors)
    && DescOk(s.files, s.descriptors, s.recording)
  }

  lemma FreshInv()
    ensures Inv(FRESH)
  {
    assert Depths(FRESH.ns, [0]);
  }

  // ----- the namespace part

  ghost predicate NsOk(s: State) {
    IsForest(s.ns) && InRange(s.ns, |s.files|)
  }

  lemma NsMkDir(s: State, path: string, mode: Mode)
    requires NsOk(s)
    ensures NsOk(ExecMkDir(s, path, mode).state)
  {
    var p := VacantParent(s.ns, path);
    if p.Ok? {
      MkdirForest(s.ns, p.value, Split(path).1);
      var ns' := ExecMkDir(s, path, mode).state.ns;
      forall a: nat, m, node | HasEntry(ns', a, m, node)
        ensures HasEntry(s.ns, a, m, node) || node == Dir(|s.ns.dirs|)
      {
      }
    }
  }

  lemma NsInsert(ns: Namespace, ns': Namespace, files: nat, files': nat, d: nat, n: Name, node: Node)
    requires IsForest(ns) && InRange(ns, files) && files <= files' && d < |ns.dirs|
    requires ns'.dirs == Insert(ns, d, n, node).dirs && |ns.links| <= |ns'.links|
    requires match node case Dir(_) => false case File(f) => f < files' case Symlink(i) => i < |ns'.links|
    ensures IsForest(ns') && InRange(ns', files')
  {
    forall a: nat, m, x | HasEntry(ns', a, m, x)
      ensures HasEntry(ns, a, m, x) || x == node
    {
    }
    FewerEntries(ns, ns');
  }

  lemma NsCreate(s: State, path: string, mode: Mode)
    requires NsOk(s)
    ensures NsOk(ExecCreate(s, path, mode).state)
  {
    var p := VacantParent(s.ns, path);
    if p.Ok? {
      NsInsert(s.ns, ExecCreate(s, path, mode).state.ns, |s.files|, |s.files| + 1, p.value, Split(path).1, File(|s.files|));
    }
  }

  lemma NsSymlink(s: State, target: string, linkPath: string)
    requires NsOk(s)
    ensures NsOk(ExecSymlink(s, target, linkPath).state)
  {
    var p := VacantParent(s.ns, linkPath);
    if p.Ok? {
      NsInsert(s.ns, ExecSymlink(s, target, linkPath).state.ns, |s.files|, |s.files|, p.value, Split(linkPath).1, Symlink(|s.ns.links|));
    }
  }

  lemma NsDelete(ns: Namespace, files: nat, d: nat, n: Name)
    requires IsForest(ns) && InRange(ns, files) && d < |ns.dirs|
    ensures IsForest(Delete(ns, d, n)) && InRange(Delete(ns, d, n), files)
  {
    forall a: nat, m, x | HasEntry(Delete(ns, d, n), a, m, x)
      ensures HasEntry(ns, a, m, x)
    {
    }
    FewerEntries(ns, Delete(ns, d, n));
  }

  /** Some directory has an entry of this name for this node. */
  ghost predicate Named(ns: Namespace, n: Name, node: Node) {
    exists d: nat :: HasEntry(ns, d, n, node)
  }

  /** Where a resolution ends is the root or what some entry says. */
  lemma {:induction false} WalkEnds(ns: Namespace, fuel: nat, segs: seq<Name>)
    requires Walk(ns, fuel, segs).Ok?
    ensures var node := Walk(ns, fuel, segs).value.node;
            if segs == [] then node == Dir(ROOT) else Named(ns, segs[|segs| - 1], node)
  {
    if segs != [] {
      var f := Walk(ns, fuel, segs[..|segs| - 1]).value;
      var d := Enter(ns, fuel, f.node).value.1;
      assert HasEntry(ns, d, segs[|segs| - 1], Walk(ns, fuel, segs).value.node);
    }
  }

  lemma {:induction false} FollowEnds(ns: Namespace, fuel: nat, path: string, follow: bool, visited: set<nat>)
    requires Follow(ns, fuel, path, follow, visited).Ok?
    ensures var node := Follow(ns, fuel, path, follow, visited).value.node;
            node == Dir(ROOT) || exists n :: Named(ns, n, node)
    ensures follow ==> !Follow(ns, fuel, path, follow, visited).value.node.Symlink?
    decreases fuel
  {
    WalkEnds(ns, fuel, Segments(path));
    var node := Walk(ns, fuel, Segments(path)).value.node;
    if node.Symlink? && follow {
      FollowEnds(ns, fuel - 1, ns.links[node.link], true, visited + {node.link});
    }
  }

  lemma ResolveEnds(ns: Namespace, path: string, follow: bool)
    requires Resolve(ns, path, follow).Ok?
    ensures var node := Resolve(ns, path, follow).value.node;
            node == Dir(ROOT) || exists n :: Named(ns, n, node)
    ensures follow ==> !Resolve(ns, path, follow).value.node.Symlink?
  {
    var fuel := BudgetOf(ns, path, follow);
    FollowEnds(ns, fuel, path, follow, {});
  }

  /** Resolution stays within the directories and files there are. */
  lemma ResolveInRange(ns: Namespace, files: nat, path: string)
    requires |ns.dirs| > 0 && InRange(ns, files)
    ensures ResolveDir(ns, path).Ok? ==> ResolveDir(ns, path).value.1 < |ns.dirs|
    ensures ResolveFile(ns, path).Ok? ==> ResolveFile(ns, path).value < files
  {
    if Resolve(ns, path, true).Ok? {
      ResolveEnds(ns, path, true);
    }
  }

  lemma HardlinkInserts(s: State, oldPath: string, newPath: string)
    requires ExecHardlink(s, oldPath, newPath).status.Done?
    ensures ResolveFile(s.ns, oldPath).Ok? && VacantParent(s.ns, newPath).Ok?
    ensures ExecHardlink(s, oldPath, newPath).state.files == s.files
    ensures ExecHardlink(s, oldPath, newPath).state.ns
            == Insert(s.ns, VacantParent(s.ns, newPath).value, Split(newPath).1, File(ResolveFile(s.ns, oldPath).value))
  {
  }

  lemma NsHardlink(s: State, oldPath: string, newPath: string)
    requires NsOk(s) && ExecHardlink(s, oldPath, newPath).status.Done?
    ensures NsOk(ExecHardlink(s, oldPath, newPath).state)
  {
    HardlinkInserts(s, oldPath, newPath);
    ResolveInRange(s.ns, |s.files|, oldPath);
    var d, n, f := VacantParent(s.ns, newPath).value, Split(newPath).1, ResolveFile(s.ns, oldPath).value;
    NsInsert(s.ns, Insert(s.ns, d, n, File(f)), |s.files|, |s.files|, d, n, File(f));
  }

  lemma NsRemove(s: State, path: string)
    requires NsOk(s)
    ensures NsOk(ExecRemove(s, path).state)
  {
    if ExecRemove(s, path).status.Done? {
      NsDelete(s.ns, |s.files|, ParentOf(s.ns, path).value, Split(path).1);
    }
  }

  lemma NsMove(ns: Namespace, files: nat, p: nat, n: Name, q: nat, m: Name, node: Node)
    requires InRange(ns, files) && p < |ns.dirs| && HasEntry(ns, q, m, node)
    ensures InRange(Delete(Insert(ns, p, n, node), q, m), files)
  {
    forall a: nat, k, x | HasEntry(Delete(Insert(ns, p, n, node), q, m), a, k, x)
      ensures HasEntry(ns, a, k, x) || (x == node && HasEntry(ns, q, m, x))
    {
    }
  }

  lemma NsRename(s: State, oldPath: string, newPath: string)
    requires NsOk(s) && !DoubledBeforeName(oldPath)
    ensures NsOk(ExecRename(s, oldPath, newPath).state)
  {
    if RenameChecks(s.ns, oldPath, newPath).Ok? {
      assert IsForest(ExecRename(s, oldPath, newPath).state.ns) by {
        RenameForest(s, oldPath, newPath);
      }
      RenameMoves(s, oldPath, newPath);
      var (p, node) := RenameChecks(s.ns, oldPath, newPath).value;
      NsMove(s.ns, |s.files|, p, Split(newPath).1, ParentOf(s.ns, oldPath).value, Split(oldPath).1, node);
    }
  }

  lemma ExecNs(s: State, op: Operation)
    requires NsOk(s) && (op.Rename? ==> !DoubledBeforeName(op.oldPath))
    ensures NsOk(Exec(s, op).state)
  {
    match op
    case MkDir(path, mode) => NsMkDir(s, path, mode);
    case Create(path, mode) => NsCreate(s, path, mode);
    case Remove(path) => NsRemove(s, path);
    case Hardlink(oldPath, newPath) =>
      if ExecHardlink(s, oldPath, newPath).status.Done? { NsHardlink(s, oldPath, newPath); }
    case Rename(oldPath, newPath) => NsRename(s, oldPath, newPath);
    case MakeSymlink(target, linkPath) => NsSymlink(s, target, linkPath);
    case _ => NsUntouched(s, op);
  }

  lemma NsUntouched(s: State, op: Operation)
    requires op.Open? || Used(op).Some?
    ensures Exec(s, op).state.ns == s.ns && |Exec(s, op).state.files| == |s.files|
  {
  }

  // ----- the data part

  /** Reads and writes through an open descriptor never fail and never trip their assertions. */
  lemma DataNeverFails(s: State, des: nat)
    requires DataOk(s.files, s.descriptors) && FileOf(s, des).Ok?
    ensures forall n :: ExecRead(s, des, n).status.Done?
    ensures forall src, n :: ExecWrite(s, des, src, n).status.Done?
  {
    var content := s.files[FileOf(s, des).value].content;
    var offset := s.descriptors[des].offset;
    forall n
      ensures ExecRead(s, des, n).status.Done?
    {
      ReadIsSlice(content, offset, n);
    }
    forall src, n
      ensures ExecWrite(s, des, src, n).status.Done?
    {
      WriteIsOverwrite(content, src, offset, n);
    }
  }

  lemma DataRead(s: State, des: nat, size: nat)
    requires DataOk(s.files, s.descriptors)
    ensures var t := ExecRead(s, des, size).state; DataOk(t.files, t.descriptors)
  {
    if FileOf(s, des).Ok? {
      ReadIsSlice(s.files[FileOf(s, des).value].content, s.descriptors[des].offset, size);
    }
  }

  lemma DataWrite(s: State, des: nat, src: nat, size: nat)
    requires DataOk(s.files, s.descriptors)
    ensures var t := ExecWrite(s, des, src, size).state; DataOk(t.files, t.descriptors)
  {
    if ExecWrite(s, des, src, size).status.Done? {
      var f, offset := FileOf(s, des).value, s.descriptors[des].offset;
      WriteIsOverwrite(s.files[f].content, src, offset, size);
      WrittenOk(s.files, s.descriptors, f, des, WriteSlices(s.files[f].content, src, offset, size), offset + size);
    }
  }

  lemma WrittenOk(files: seq<FileRecord>, descriptors: seq<Descriptor>, f: nat, des: nat, content: seq<SourceSlice>, offset: nat)
    requires DataOk(files, descriptors) && des < |descriptors| && descriptors[des].file == f < |files|
    requires Tight(content) && TotalSize(files[f].content) <= TotalSize(content) && offset <= TotalSize(content)
    ensures DataOk(files[f := files[f].(content := content)], descriptors[des := descriptors[des].(offset := offset)])
  {
  }

  lemma DataOpen(s: State, path: string)
    requires DataOk(s.files, s.descriptors)
    ensures var t := ExecOpen(s, path).state; DataOk(t.files, t.descriptors)
  {
  }

  lemma DataClose(s: State, des: nat)
    requires DataOk(s.files, s.descriptors)
    ensures var t := ExecClose(s, des).state; DataOk(t.files, t.descriptors)
  {
  }

  lemma DataCreate(s: State, path: string, mode: Mode)
    requires DataOk(s.files, s.descriptors)
    ensures var t := ExecCreate(s, path, mode).state; DataOk(t.files, t.descriptors)
  {
  }

  lemma DataUntouched(s: State, op: Operation)
    requires op.MkDir? || op.Remove? || op.Hardlink? || op.Rename? || op.MakeSymlink? || op.FSync?
    ensures Exec(s, op).state.files == s.files && Exec(s, op).state.descriptors == s.descriptors
  {
  }

  lemma ExecData(s: State, op: Operation)
    requires DataOk(s.files, s.descriptors)
    ensures var t := Exec(s, op).state; DataOk(t.files, t.descriptors)
  {
    match op
    case Read(des, size) => DataRead(s, des, size);
    case Write(des, src, size) => DataWrite(s, des, src, size);
    case Open(path, _) => DataOpen(s, path);
    case Close(des) => DataClose(s, des);
    case Create(path, mode) => DataCreate(s, path, mode);
    case _ => DataUntouched(s, op);
  }

  // ----- the descriptor part

  lemma LifeCycleSnoc(ops: seq<Operation>, op: Operation)
    ensures LifeCycle(ops + [op]) <==> LifeCycle(ops) && InTurn(ops, op)
    ensures Opens(ops + [op]) == Opens(ops) + if op.Open? then 1 else 0
    ensures forall k :: Close(k) in ops + [op] <==> Close(k) in ops || op == Close(k)
  {
    var all := ops + [op];
    assert all[..|ops|] == ops;
    forall j | 0 <= j < |ops|
      ensures all[..j] == ops[..j] && all[j] == ops[j]
    {
    }
    assert all[|ops|] == op;
    if LifeCycle(all) {
      forall j | 0 <= j < |ops|
        ensures InTurn(ops[..j], ops[j])
      {
        assert InTurn(all[..j], all[j]);
      }
      assert InTurn(all[..|ops|], all[|ops|]);
    }
  }

  /** The operation that a successful call records. */
  ghost function Logged(s: State, op: Operation): Operation {
    if op.Open? then Open(op.path, |s.descriptors|) else op
  }

  /** A call that succeeds appends one operation; one that does not succeed appends none. */
  lemma ExecRecords(s: State, op: Operation)
    ensures Exec(s, op).state.recording == if Exec(s, op).status.Done? then s.recording + [Logged(s, op)] else s.recording
  {
  }

  /** Offsets and contents aside, only Create, Open and Close touch files and descriptors. */
  lemma DescFrame(s: State, op: Operation)
    requires !op.Create? && !op.Open? && !op.Close? && Exec(s, op).status.Done?
    ensures var t := Exec(s, op).state;
            && |t.files| == |s.files| && |t.descriptors| == |s.descriptors|
            && (forall f :: 0 <= f < |s.files| ==> t.files[f].descriptor == s.files[f].descriptor)
            && (forall k :: 0 <= k < |s.descriptors| ==> t.descriptors[k].file == s.descriptors[k].file)
    ensures Used(op).Some? ==> FileOf(s, Used(op).value).Ok?
  {
  }

  lemma ExecDescOther(s: State, op: Operation)
    requires !op.Create? && !op.Open? && !op.Close? && Exec(s, op).status.Done?
    requires DescOk(s.files, s.descriptors, s.recording)
    ensures var t := Exec(s, op).state; DescOk(t.files, t.descriptors, t.recording)
  {
    DescFrame(s, op);
    ExecRecords(s, op);
    LifeCycleSnoc(s.recording, op);
  }

  lemma ExecDescOpen(s: State, op: Operation)
    requires (op.Open? || op.Create?) && Exec(s, op).status.Done?
    requires DescOk(s.files, s.descriptors, s.recording)
    ensures var t := Exec(s, op).state; DescOk(t.files, t.descriptors, t.recording)
  {
    match op
    case Open(path, _) =>
      OpenKeeps(s.files, s.descriptors, s.recording, ResolveFile(s.ns, path).value, path);
      assert Exec(s, op) == ExecOpen(s, path);
    case Create(path, mode) =>
      CreateKeeps(s.files, s.descriptors, s.recording, path, mode);
      assert Exec(s, op) == ExecCreate(s, path, mode);
  }

  lemma OpenKeeps(files: seq<FileRecord>, descriptors: seq<Descriptor>, ops: seq<Operation>, f: nat, path: string)
    requires DescOk(files, descriptors, ops) && f < |files| && files[f].descriptor.None?
    ensures var des := |descriptors|;
            DescOk(files[f := files[f].(descriptor := Some(des))], descriptors + [Descriptor(f, 0)], ops + [Open(path, des)])
  {
    LifeCycleSnoc(ops, Open(path, |descriptors|));
    NotYetClosed(ops, |descriptors|);
  }

  lemma CreateKeeps(files: seq<FileRecord>, descriptors: seq<Descriptor>, ops: seq<Operation>, path: string, mode: Mode)
    requires DescOk(files, descriptors, ops)
    ensures DescOk(files + [FileRecord(None, [])], descriptors, ops + [Create(path, mode)])
  {
    LifeCycleSnoc(ops, Create(path, mode));
  }

  lemma {:induction false} OpensMonotone(ops: seq<Operation>, j: nat)
    requires j <= |ops|
    ensures Opens(ops[..j]) <= Opens(ops)
    decreases |ops|
  {
    if j < |ops| {
      OpensMonotone(ops[..|ops| - 1], j);
      assert ops[..|ops| - 1][..j] == ops[..j];
    } else {
      assert ops[..j] == ops;
    }
  }

  /** A number that was never opened was never closed. */
  lemma NotYetClosed(ops: seq<Operation>, k: nat)
    requires LifeCycle(ops) && k >= Opens(ops)
    ensures Close(k) !in ops
  {
    if Close(k) in ops {
      var j :| 0 <= j < |ops| && ops[j] == Close(k);
      assert InTurn(ops[..j], ops[j]);
      OpensMonotone(ops, j);
      assert false;
    }
  }

  lemma ExecDescClose(s: State, op: Operation)
    requires op.Close? && Exec(s, op).status.Done?
    requires DescOk(s.files, s.descriptors, s.recording)
    ensures var t := Exec(s, op).state; DescOk(t.files, t.descriptors, t.recording)
  {
    CloseKeeps(s.files, s.descriptors, s.recording, op.des);
    assert Exec(s, op) == ExecClose(s, op.des);
  }

  lemma CloseKeeps(files: seq<FileRecord>, descriptors: seq<Descriptor>, ops: seq<Operation>, des: nat)
    requires DescOk(files, descriptors, ops)
    requires des < |descriptors| && files[descriptors[des].file].descriptor == Some(des)
    ensures DescOk(Closed(files, descriptors[des].file), descriptors, ops + [Close(des)])
  {
    LifeCycleSnoc(ops, Close(des));
    CloseHandles(files, descriptors, ops, des);
    CloseFiles(files, descriptors, descriptors[des].file);
  }

  function Closed(files: seq<FileRecord>, f: nat): seq<FileRecord>
    requires f < |files|
  {
    files[f := files[f].(descriptor := None)]
  }

  lemma CloseFiles(files: seq<FileRecord>, descriptors: seq<Descriptor>, g: nat)
    requires PointBack(files, descriptors) && g < |files|
    ensures PointBack(Closed(files, g), descriptors)
  {
  }

  lemma CloseHandles(files: seq<FileRecord>, descriptors: seq<Descriptor>, ops: seq<Operation>, des: nat)
    requires OpenUntilClosed(files, descriptors, ops) && PointBack(files, descriptors)
    requires des < |descriptors| && files[descriptors[des].file].descriptor == Some(des)
    ensures OpenUntilClosed(Closed(files, descriptors[des].file), descriptors, ops + [Close(des)])
  {
    var files' := Closed(files, descriptors[des].file);
    forall k: nat | k < |descriptors|
      ensures descriptors[k].file < |files'| && (files'[descriptors[k].file].descriptor == Some(k) <==> Close(k) !in ops + [Close(des)])
    {
      assert files[descriptors[k].file].descriptor == Some(k) <==> Close(k) !in ops;
      assert Close(k) in ops + [Close(des)] <==> Close(k) in ops || k == des;
    }
  }

  // ----- calls that fail

  /** A rename that fails after its first change: doubled slashes before the old name, and an entry that was not there. */
  ghost predicate HalfDone(s: State, op: Operation) {
    && op.Rename? && DoubledBeforeName(op.oldPath)
    && var c := RenameChecks(s.ns, op.oldPath, op.newPath);
       c.Ok? && !HasEntry(s.ns, c.value.0, Split(op.newPath).1, c.value.1)
  }

  /** A half-done rename of a directory, which then has two parents. */
  ghost predicate Doubles(s: State, op: Operation) {
    HalfDone(s, op) && RenameChecks(s.ns, op.oldPath, op.newPath).value.1.Dir?
  }

  /** A call that does not succeed changes the state if and only if it is a half-done rename. */
  lemma ExecAtomic(s: State, op: Operation)
    requires |s.ns.dirs| > 0 && RootFree(s.ns) && OneParent(s.ns) && !Exec(s, op).status.Done?
    ensures Exec(s, op).state != s <==> HalfDone(s, op)
  {
    if op.Rename? {
      RenameAtomic(s, op.oldPath, op.newPath);
      ExecOfRename(s, op);
    }
  }

  lemma ExecOfRename(s: State, op: Operation)
    requires op.Rename?
    ensures Exec(s, op) == ExecRename(s, op.oldPath, op.newPath)
  {
    match op
    case Rename(_, _) =>
  }

  /** Files, descriptors and recording it does not change in any case. */
  lemma FailKeepsData(s: State, op: Operation)
    requires !Exec(s, op).status.Done?
    ensures var t := Exec(s, op).state; t.files == s.files && t.descriptors == s.descriptors && t.recording == s.recording
  {
  }

  /** What a half-done rename leaves behind: the node under both names. */
  lemma HalfDoneInserts(s: State, op: Operation)
    requires |s.ns.dirs| > 0 && RootFree(s.ns) && OneParent(s.ns) && HalfDone(s, op)
    ensures var (p, node) := RenameChecks(s.ns, op.oldPath, op.newPath).value;
            Exec(s, op) == Effect(s.(ns := Insert(s.ns, p, Split(op.newPath).1, node)), Failed(InvalidPath))
  {
    RenameMoves(s, op.oldPath, op.newPath);
    ExecOfRename(s, op);
  }

  /** The node that rename finds at the old path is the root or has an entry. */
  lemma RenamedHasEntry(ns: Namespace, oldPath: string, newPath: string)
    requires RenameChecks(ns, oldPath, newPath).Ok?
    ensures var node := RenameChecks(ns, oldPath, newPath).value.1; node == Dir(ROOT) || exists n :: Named(ns, n, node)
  {
    ResolveEnds(ns, oldPath, false);
  }

  /** A directory with an entry that gets another one has two. */
  lemma TwoParents(ns: Namespace, p: nat, n: Name, c: nat)
    requires p < |ns.dirs| && !HasEntry(ns, p, n, Dir(c))
    requires c == ROOT || exists m :: Named(ns, m, Dir(c))
    ensures !IsForest(Insert(ns, p, n, Dir(c)))
  {
    var ns' := Insert(ns, p, n, Dir(c));
    assert HasEntry(ns', p, n, Dir(c));
    if c != ROOT {
      var m :| Named(ns, m, Dir(c));
      var a: nat :| HasEntry(ns, a, m, Dir(c));
      assert HasEntry(ns', a, m, Dir(c));
    }
  }

  lemma InsertLeaf(ns: Namespace, files: nat, p: nat, n: Name, node: Node)
    requires IsForest(ns) && InRange(ns, files) && p < |ns.dirs| && !node.Dir? && exists m :: Named(ns, m, node)
    ensures IsForest(Insert(ns, p, n, node)) && InRange(Insert(ns, p, n, node), files)
  {
    var m :| Named(ns, m, node);
    var a: nat :| HasEntry(ns, a, m, node);
    NsInsert(ns, Insert(ns, p, n, node), files, files, p, n, node);
  }

  /** Whatever a call does, the directories stay a forest if and only if it is no half-done rename of a directory. */
  lemma ForestStep(s: State, op: Operation)
    requires NsOk(s)
    ensures IsForest(Exec(s, op).state.ns) <==> !Doubles(s, op)
    ensures !Doubles(s, op) ==> NsOk(Exec(s, op).state)
  {
    if HalfDone(s, op) {
      var (p, node) := RenameChecks(s.ns, op.oldPath, op.newPath).value;
      HalfDoneInserts(s, op);
      RenamedHasEntry(s.ns, op.oldPath, op.newPath);
      if node.Dir? {
        TwoParents(s.ns, p, Split(op.newPath).1, node.dir);
      } else {
        InsertLeaf(s.ns, |s.files|, p, Split(op.newPath).1, node);
      }
    } else if Exec(s, op).status.Done? {
      DoneIsPlain(s, op);
      ExecNs(s, op);
    } else {
      ExecAtomic(s, op);
    }
  }

  lemma DoneIsPlain(s: State, op: Operation)
    requires |s.ns.dirs| > 0 && RootFree(s.ns) && OneParent(s.ns) && Exec(s, op).status.Done?
    ensures op.Rename? ==> !DoubledBeforeName(op.oldPath)
  {
    if op.Rename? {
      RenameAtomic(s, op.oldPath, op.newPath);
      ExecOfRename(s, op);
    }
  }

  /** Files and descriptors in order; no name plays a part in it. */
  ghost predicate DataInv(s: State) {
    DataOk(s.files, s.descriptors) && DescOk(s.files, s.descriptors, s.recording)
  }

  /** Every call keeps files and descriptors in order, in whatever namespace and with whatever success. */
  lemma DataStep(s: State, op: Operation)
    requires DataInv(s)
    ensures DataInv(Exec(s, op).state)
  {
    ExecData(s, op);
    if !Exec(s, op).status.Done? {
      FailKeepsData(s, op);
    } else if op.Close? {
      ExecDescClose(s, op);
    } else if op.Open? || op.Create? {
      ExecDescOpen(s, op);
    } else {
      ExecDescOther(s, op);
    }
  }

  /** Every call keeps the invariant, unless it is a half-done rename of a directory. */
  lemma InvStep(s: State, op: Operation)
    requires Inv(s)
    ensures Inv(Exec(s, op).state) <==> !Doubles(s, op)
  {
    ForestStep(s, op);
    DataStep(s, op);
  }

  // ----- runs

  /** Calls one after another, whether they succeed or not. */
  ghost function RunAll(s: State, calls: seq<Operation>): State
    decreases |calls|
  {
    if calls == [] then s else RunAll(Exec(s, calls[0]).state, calls[1..])
  }

  /** No call of a run is half done in the state it meets. */
  ghost predicate NeverHalfDone(s: State, calls: seq<Operation>)
    decreases |calls|
  {
    calls == [] || (!HalfDone(s, calls[0]) && NeverHalfDone(Exec(s, calls[0]).state, calls[1..]))
  }

  /** No call of a run gives a directory two parents. */
  ghost predicate NeverDoubles(s: State, calls: seq<Operation>)
    decreases |calls|
  {
    calls == [] || (!Doubles(s, calls[0]) && NeverDoubles(Exec(s, calls[0]).state, calls[1..]))
  }

  lemma {:induction false} HalfDoneDoubles(s: State, calls: seq<Operation>)
    requires NeverHalfDone(s, calls)
    ensures NeverDoubles(s, calls)
    decreases |calls|
  {
    if calls != [] {
      HalfDoneDoubles(Exec(s, calls[0]).state, calls[1..]);
    }
  }

  /** Without doubled slashes before the name of what is renamed, nothing is ever half done. */
  lemma {:induction false} PlainNeverHalfDone(s: State, calls: seq<Operation>)
    requires forall op :: op in calls && op.Rename? ==> !DoubledBeforeName(op.oldPath)
    ensures NeverHalfDone(s, calls)
    decreases |calls|
  {
    if calls != [] {
      PlainNeverHalfDone(Exec(s, calls[0]).state, calls[1..]);
    }
  }

  /** Files and descriptors are in order after any calls at all. */
  lemma {:induction false} RunData(s: State, calls: seq<Operation>)
    requires DataInv(s)
    ensures DataInv(RunAll(s, calls))
    decreases |calls|
  {
    if calls != [] {
      DataStep(s, calls[0]);
      RunData(Exec(s, calls[0]).state, calls[1..]);
    }
  }

  /** The whole invariant holds after any mix of successful and failing calls none of which gives a directory two parents. */
  lemma {:induction false} RunInv(s: State, calls: seq<Operation>)
    requires Inv(s) && NeverDoubles(s, calls)
    ensures Inv(RunAll(s, calls))
    decreases |calls|
  {
    if calls != [] {
      InvStep(s, calls[0]);
      RunInv(Exec(s, calls[0]).state, calls[1..]);
    }
  }

  /** So in every such run the directories are a forest, and none is ever its own descendant. */
  lemma RunForest(calls: seq<Operation>)
    requires NeverDoubles(FRESH, calls)
    ensures var ns := RunAll(FRESH, calls).ns;
            IsForest(ns) && forall a: nat, k: nat :: a < |ns.dirs| && k > 0 ==> !ReachIn(ns, a, a, k)
  {
    FreshInv();
    RunInv(FRESH, calls);
    var ns := RunAll(FRESH, calls).ns;
    forall a: nat, k: nat | a < |ns.dirs| && k > 0
      ensures !ReachIn(ns, a, a, k)
    {
      NotOwnDescendant(ns, a, k);
    }
  }

  /** Recording a call and running the recorded operation instead come to the same. */
  lemma LoggedSame(s: State, op: Operation)
    ensures Exec(s, Logged(s, op)) == Exec(s, op)
  {
  }

  /** Where the recording rebuilds the state, it does so after one more call if and only if that is not half done. */
  lemma ReplayStep(s: State, op: Operation)
    requires |s.ns.dirs| > 0 && RootFree(s.ns) && OneParent(s.ns) && Replay(FRESH, s.recording) == Effect(s, Done)
    ensures var t := Exec(s, op).state; Replay(FRESH, t.recording) == Effect(t, Done) <==> !HalfDone(s, op)
  {
    if Exec(s, op).status.Done? {
      DoneIsPlain(s, op);
      ExecRecords(s, op);
      LoggedSame(s, op);
      ReplaySnoc(FRESH, s.recording, Logged(s, op));
    } else {
      ExecAtomic(s, op);
      FailKeepsData(s, op);
    }
  }

  lemma {:induction false} RunReplays(s: State, calls: seq<Operation>)
    requires NsOk(s) && NeverHalfDone(s, calls)
    requires Replay(FRESH, s.recording) == Effect(s, Done)
    ensures var t := RunAll(s, calls); Replay(FRESH, t.recording) == Effect(t, Done)
    decreases |calls|
  {
    if calls != [] {
      ReplayStep(s, calls[0]);
      ForestStep(s, calls[0]);
      RunReplays(Exec(s, calls[0]).state, calls[1..]);
    }
  }

  /**
   Replay: after any mix of successful and failing calls on a new filesystem none of which is half done,
   replaying the recording into a new filesystem succeeds and rebuilds the same directories, files, symlinks,
   descriptors and recording.
   */
  lemma ReplayRebuilds(calls: seq<Operation>)
    requires NeverHalfDone(FRESH, calls)
    ensures var t := RunAll(FRESH, calls); Replay(FRESH, t.recording) == Effect(t, Done)
  {
    FreshInv();
    RunReplays(FRESH, calls);
  }

  /** Every successful call keeps the invariant. */
  lemma ExecInv(s: State, op: Operation)
    requires Inv(s) && Exec(s, op).status.Done?
    ensures Inv(Exec(s, op).state)
  {
    DoneIsPlain(s, op);
    InvStep(s, op);
  }

  /** Replays that succeed keep the invariant too, and record what they were given up to descriptor numbers. */
  lemma {:induction false} ReplayInv(s: State, ops: seq<Operation>)
    requires Inv(s) && Replay(s, ops).status.Done?
    ensures Inv(Replay(s, ops).state)
    decreases |ops|
  {
    if ops != [] {
      ExecInv(s, ops[0]);
      ReplayInv(Exec(s, ops[0]).state, ops[1..]);
    }
  }
}

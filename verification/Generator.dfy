/**
 The workload generator (diffuzzer/src/abstract_fs/generator.rs). A random choice is any choice; none of
 the source's unwraps can fail, because every call below is proved to succeed.
 */
module Generator {
  import opened Wrappers
  import opened Pathname
  import opened Nodes
  import opened Resolution
  import opened Operations
  import opened Invariants
  import opened Discipline
  import opened FileSystem
  import opened Trails
  import opened Rounds
  import opened Alive
  import opened Names
  import opened Choices

  datatype OperationKind =
    | KMkDir | KCreate | KRemove | KHardlink | KRename | KOpen | KClose | KRead | KWrite | KFSync | KSymlink

  type Weights = seq<(OperationKind, nat)>

  const DEFAULT_MODE: Mode := ["S_IRWXU", "S_IRWXG", "S_IROTH", "S_IXOTH"]

  const INTERESTING_UNSIGNED: seq<nat> :=
    [0, 1, 16, 32, 64, 100, 127, 128, 255, 256, 512, 1000, 1024, 4096, 32767, 32768, 65535, 65536, 100000]

  // ----- what is available

  function ExceptRoot(items: seq<Item>): (r: seq<Item>)
    ensures forall e :: e in r <==> e in items && e.0 != ROOT
  {
    if items == [] then [] else (if items[0].0 != ROOT then [items[0]] else []) + ExceptRoot(items[1..])
  }

  function ClosedOnly(files: seq<FileRecord>, items: seq<Item>): (r: seq<Item>)
    requires forall e :: e in items ==> e.0 < |files|
    ensures forall e :: e in r <==> e in items && files[e.0].descriptor.None?
  {
    if items == [] then [] else (if files[items[0].0].descriptor.None? then [items[0]] else []) + ClosedOnly(files, items[1..])
  }

  /** The files with an open descriptor, each of which stands for that descriptor. */
  function OpenOnly(files: seq<FileRecord>, items: seq<Item>): (r: seq<Item>)
    requires forall e :: e in items ==> e.0 < |files|
    ensures forall e :: e in r <==> e in items && files[e.0].descriptor.Some?
  {
    if items == [] then [] else (if files[items[0].0].descriptor.Some? then [items[0]] else []) + OpenOnly(files, items[1..])
  }

  /** What the generator chooses from. */
  datatype Stock = Stock(alive: AliveNodes, exceptRoot: seq<Item>, closed: seq<Item>, open: seq<Item>)

  /** Whether an operation of this kind can be made at all; the source drops the other kinds' weights. */
  predicate Usable(k: Stock, kind: OperationKind) {
    match kind
    case KMkDir | KCreate | KSymlink => true
    case KRemove | KRename => k.exceptRoot != [] || k.alive.files != []
    case KHardlink => k.alive.files != []
    case KOpen => k.closed != []
    case KClose | KRead | KWrite | KFSync => k.open != []
  }

  function Retained(k: Stock, weights: Weights): (r: Weights)
    ensures forall w :: w in r <==> w in weights && Usable(k, w.0)
  {
    if weights == [] then [] else (if Usable(k, weights[0].0) then [weights[0]] else []) + Retained(k, weights[1..])
  }

  /** The stock of a state, as the search for alive nodes gives it. */
  ghost predicate StockOf(s: State, k: Stock) {
    && Lists(s.ns, k.alive, MAX_SYMLINK_FOLLOW)
    && (forall e :: e in k.exceptRoot <==> e in k.alive.dirs && e.0 != ROOT)
    && (forall e :: e in k.alive.files || e in k.alive.filesSymlinked ==> e.0 < |s.files|)
    && (forall e :: e in k.closed <==> (e in k.alive.files || e in k.alive.filesSymlinked) && s.files[e.0].descriptor.None?)
    && (forall e :: e in k.open <==> e in k.alive.files && s.files[e.0].descriptor.Some?)
  }

  /** Some kind of operation can be chosen: its weight is positive and there is something to apply it to. */
  ghost predicate Choosable(s: State, weights: Weights) {
    forall k :: StockOf(s, k) ==> exists w :: w in weights && w.1 > 0 && Usable(k, w.0)
  }

  /** A positive weight on a kind that needs nothing is enough. */
  lemma AlwaysChoosable(s: State, weights: Weights)
    requires exists w :: w in weights && w.1 > 0 && (w.0 == KMkDir || w.0 == KCreate || w.0 == KSymlink)
    ensures Choosable(s, weights)
  {
    var w :| w in weights && w.1 > 0 && (w.0 == KMkDir || w.0 == KCreate || w.0 == KSymlink);
    forall k | StockOf(s, k)
      ensures exists w :: w in weights && w.1 > 0 && Usable(k, w.0)
    {
      assert Usable(k, w.0);
    }
  }

  method TakeStock(fs: AbstractFS) returns (k: Stock)
    requires Fit(fs.View())
    ensures StockOf(fs.View(), k)
  {
    ghost var s := fs.View();
    FitSearchable(s);
    var alive := AliveSearch(fs);
    assert forall e :: e in alive.files || e in alive.filesSymlinked ==> e.0 < |fs.files| by {
      ListsSound(s.ns, alive, MAX_SYMLINK_FOLLOW);
      forall e | e in alive.files || e in alive.filesSymlinked
        ensures e.0 < |s.files|
      {
        PathReturns(s, e.1);
      }
    }
    k := Stock(alive, ExceptRoot(alive.dirs), ClosedOnly(fs.files, alive.files + alive.filesSymlinked), OpenOnly(fs.files, alive.files));
  }

  /** The names still to be generated are fresh for a recording. */
  ghost predicate Supplies(used: set<string>, idx: nat, ops: seq<Operation>) {
    forall i: nat :: i >= idx && Decimal(i) !in used ==> FreshName(ops, Decimal(i))
  }

  /** An operation that introduces at most a name already generated and mentions none to come leaves the supply fresh. */
  lemma SuppliesAfter(used: set<string>, before: nat, idx: nat, ops: seq<Operation>, op: Operation, logged: Operation)
    requires Supplies(used, before, ops) && before <= idx
    requires SameNames([op], [logged])
    requires Introduced(op).Some? ==> before < idx && Introduced(op).value == Decimal(idx - 1)
    requires op.MakeSymlink? ==> forall g :: g in Segments(op.target) ==> Rank(ops, g) > 0
    ensures Supplies(used, idx, ops + [logged])
  {
    assert [op][0] == op && [logged][0] == logged;
    forall i: nat | i >= idx && Decimal(i) !in used
      ensures FreshName(ops + [logged], Decimal(i))
    {
      var n := Decimal(i);
      assert FreshName(ops, n);
      RankSnoc(ops, logged, n);
      if Introduced(op) == Some(n) {
        DecimalInjective(i, idx - 1);
      }
      forall m | m in ops + [logged] && m.MakeSymlink?
        ensures n !in Segments(m.target)
      {
        assert m in ops || m == logged;
      }
    }
  }

  // ----- the facts behind each choice

  lemma StockRoot(s: State, k: Stock)
    requires StockOf(s, k)
    ensures (ROOT, "/") in k.alive.dirs
  {
  }

  lemma StockDir(s: State, k: Stock, e: Item)
    requires Fit(s) && StockOf(s, k) && e in k.alive.dirs
    ensures Canonical(e.1) && ResolveDir(s.ns, e.1).Ok? && ResolveDir(s.ns, e.1).value.1 == e.0
    ensures e.0 != ROOT ==> Exists(s.ns, e.1)
    ensures At(s.ns, e.1).Some?
  {
    FitSearchable(s);
    ListsSound(s.ns, k.alive, MAX_SYMLINK_FOLLOW);
    AtRoot(s.ns);
  }

  lemma StockFile(s: State, k: Stock, e: Item)
    requires Fit(s) && StockOf(s, k) && (e in k.alive.files || e in k.alive.filesSymlinked)
    ensures ResolveFile(s.ns, e.1) == Ok(e.0) && e.0 < |s.files|
    ensures e in k.alive.files ==> Exists(s.ns, e.1) && NodeAt(s.ns, e.1) == File(e.0)
  {
    FitSearchable(s);
    ListsSound(s.ns, k.alive, MAX_SYMLINK_FOLLOW);
  }

  lemma StockClosed(s: State, k: Stock, e: Item)
    requires StockOf(s, k) && e in k.closed
    ensures (e in k.alive.files || e in k.alive.filesSymlinked) && e.0 < |s.files| && s.files[e.0].descriptor.None?
  {
  }

  /** A path of the stock that can be removed, renamed or linked to. */
  ghost predicate Movable(k: Stock, x: string) {
    || (exists e :: e in k.exceptRoot && e.1 == x)
    || (exists e :: e in k.alive.files && e.1 == x)
    || x in k.alive.symlinks
  }

  lemma MovableExists(s: State, k: Stock, x: string)
    requires Fit(s) && StockOf(s, k) && Movable(k, x)
    ensures Exists(s.ns, x)
  {
    if e :| e in k.exceptRoot && e.1 == x {
      StockDir(s, k, e);
    } else if e :| e in k.alive.files && e.1 == x {
      StockFile(s, k, e);
    }
  }

  /** The names in the path of anything alive were introduced. */
  lemma TargetRanked(s: State, k: Stock, x: string)
    requires Fit(s) && StockOf(s, k) && (Movable(k, x) || exists e :: e in k.alive.dirs && e.1 == x)
    ensures forall g :: g in Segments(x) ==> Rank(s.recording, g) > 0
  {
    if Movable(k, x) {
      MovableExists(s, k, x);
      ExistingRanked(s, x);
    } else {
      var e :| e in k.alive.dirs && e.1 == x;
      StockDir(s, k, e);
      TrailRanked(s, x);
    }
  }

  /** What is wanted of a chosen operation: it succeeds, keeps the discipline, and leaves the names to come fresh. */
  ghost predicate Chosen(s: State, op: Operation, used: set<string>, idx: nat) {
    && Exec(s, op).status.Done?
    && FitsIn(s.recording, op, used)
    && Supplies(used, idx, Exec(s, op).state.recording)
  }

  lemma ChosenStep(s: State, op: Operation, used: set<string>, idx: nat)
    requires Chosen(s, op, used, idx)
    ensures Step(s, Exec(s, op).state, used)
  {
  }

  /** A successful operation under the name just generated, or under no new name. */
  lemma IsChosen(s: State, op: Operation, used: set<string>, before: nat, idx: nat)
    requires FreshStep(s.recording, op) && Exec(s, op).status.Done?
    requires Supplies(used, before, s.recording) && before <= idx
    requires Introduced(op).Some? ==> before < idx && Introduced(op).value == Decimal(idx - 1) && Introduced(op).value !in used
    requires op.MakeSymlink? ==> forall g :: g in Segments(op.target) ==> Rank(s.recording, g) > 0
    ensures Chosen(s, op, used, idx)
  {
    ExecRecords(s, op);
    SuppliesAfter(used, before, idx, s.recording, op, Logged(s, op));
  }

  lemma IsChosenPlain(s: State, op: Operation, used: set<string>, idx: nat)
    requires NewPath(op).None? && Exec(s, op).status.Done? && Supplies(used, idx, s.recording)
    ensures Chosen(s, op, used, idx)
  {
    IsChosen(s, op, used, idx, idx);
  }

  /** The name just generated is fresh. */
  ghost predicate Generated(ops: seq<Operation>, used: set<string>, before: nat, idx: nat, name: Name) {
    && Supplies(used, before, ops)
    && before < idx && name == Decimal(idx - 1) && name !in used
  }

  lemma NewChosen(s: State, k: Stock, e: Item, op: Operation, used: set<string>, before: nat, idx: nat, name: Name)
    requires Fit(s) && StockOf(s, k) && e in k.alive.dirs && Generated(s.recording, used, before, idx, name)
    requires op.MkDir? || op.Create? || (op.MakeSymlink? && forall g :: g in Segments(op.target) ==> Rank(s.recording, g) > 0)
    requires NewPath(op) == Some(Join(e.1, name))
    ensures Chosen(s, op, used, idx)
  {
    StockDir(s, k, e);
    assert FreshName(s.recording, name);
    NewNodeSucceeds(s, e.1, e.0, name, op);
    FreshOperation(s.recording, op, e.1, name);
    IsChosen(s, op, used, before, idx);
  }

  function Made(kind: OperationKind, path: string, target: string): Operation
    requires kind == KMkDir || kind == KCreate || kind == KSymlink
  {
    if kind == KMkDir then MkDir(path, DEFAULT_MODE)
    else if kind == KCreate then Create(path, DEFAULT_MODE)
    else MakeSymlink(target, path)
  }

  lemma MadeChosen(s: State, k: Stock, e: Item, kind: OperationKind, target: string, used: set<string>, before: nat, idx: nat, name: Name)
    requires Fit(s) && StockOf(s, k) && e in k.alive.dirs && Generated(s.recording, used, before, idx, name)
    requires Movable(k, target) || exists t :: t in k.alive.dirs && t.1 == target
    requires kind == KMkDir || kind == KCreate || kind == KSymlink
    ensures Chosen(s, Made(kind, Join(e.1, name), target), used, idx)
  {
    TargetRanked(s, k, target);
    MadeShape(kind, Join(e.1, name), target);
    NewChosen(s, k, e, Made(kind, Join(e.1, name), target), used, before, idx, name);
  }

  lemma MadeShape(kind: OperationKind, path: string, target: string)
    requires kind == KMkDir || kind == KCreate || kind == KSymlink
    ensures var op := Made(kind, path, target);
            NewPath(op) == Some(path) && (op.MkDir? || op.Create? || (op.MakeSymlink? && op.target == target))
  {
  }

  lemma HardlinkChosen(s: State, k: Stock, f: Item, e: Item, used: set<string>, before: nat, idx: nat, name: Name)
    requires Fit(s) && StockOf(s, k) && f in k.alive.files && e in k.alive.dirs
    requires Generated(s.recording, used, before, idx, name)
    ensures Chosen(s, Hardlink(f.1, Join(e.1, name)), used, idx)
  {
    var op := Hardlink(f.1, Join(e.1, name));
    StockFile(s, k, f);
    StockDir(s, k, e);
    assert FreshName(s.recording, name);
    HardlinkSucceeds(s, f.1, f.0, e.1, e.0, name);
    FreshOperation(s.recording, op, e.1, name);
    IsChosen(s, op, used, before, idx);
  }

  lemma RenameChosen(s: State, k: Stock, x: string, e: Item, used: set<string>, before: nat, idx: nat, name: Name)
    requires Fit(s) && StockOf(s, k) && Movable(k, x) && e in k.alive.dirs
    requires Generated(s.recording, used, before, idx, name)
    ensures var op := Rename(x, Join(e.1, name));
            && (Chosen(s, op, used, idx) || Exec(s, op) == Effect(s, Failed(RenameToSubdirectoryError)))
            && (e.1 == "/" ==> Chosen(s, op, used, idx))
  {
    var op := Rename(x, Join(e.1, name));
    MovableExists(s, k, x);
    StockDir(s, k, e);
    assert FreshName(s.recording, name);
    RenameSucceeds(s, x, e.1, e.0, name);
    FreshOperation(s.recording, op, e.1, name);
    if Exec(s, op).status.Done? {
      IsChosen(s, op, used, before, idx);
    }
  }

  lemma RemoveChosen(s: State, k: Stock, x: string, used: set<string>, idx: nat)
    requires Fit(s) && StockOf(s, k) && Movable(k, x) && Supplies(used, idx, s.recording)
    ensures Chosen(s, Remove(x), used, idx)
  {
    MovableExists(s, k, x);
    RemoveSucceeds(s, x);
    IsChosenPlain(s, Remove(x), used, idx);
  }

  lemma OpenChosen(s: State, k: Stock, e: Item, used: set<string>, idx: nat)
    requires Fit(s) && StockOf(s, k) && e in k.closed && Supplies(used, idx, s.recording)
    ensures Chosen(s, Open(e.1, |s.descriptors|), used, idx)
  {
    var op := Open(e.1, |s.descriptors|);
    StockClosed(s, k, e);
    StockFile(s, k, e);
    OpenSucceeds(s, e.1, e.0);
    IsChosenPlain(s, op, used, idx);
  }

  lemma UseChosen(s: State, k: Stock, e: Item, op: Operation, used: set<string>, idx: nat)
    requires Fit(s) && StockOf(s, k) && e in k.open && Supplies(used, idx, s.recording)
    requires e.0 < |s.files| && s.files[e.0].descriptor.Some? && Used(op) == s.files[e.0].descriptor
    ensures Chosen(s, op, used, idx)
  {
    UseSucceeds(s, e.0, op);
    IsChosenPlain(s, op, used, idx);
  }

  // ----- what may be drawn

  /** The kind that stands for an operation; the kind Write reads and the kind Read writes, as in the source. */
  function KindOf(op: Operation): OperationKind {
    match op
    case MkDir(_, _) => KMkDir
    case Create(_, _) => KCreate
    case Remove(_) => KRemove
    case Hardlink(_, _) => KHardlink
    case Rename(_, _) => KRename
    case Open(_, _) => KOpen
    case Close(_) => KClose
    case Read(_, _) => KWrite
    case Write(_, _, _) => KRead
    case FSync(_) => KFSync
    case MakeSymlink(_, _) => KSymlink
  }

  /** A name in an alive directory. */
  ghost predicate Beneath(k: Stock, path: string) {
    exists e, n :: e in k.alive.dirs && path == Join(e.1, n)
  }

  ghost predicate HasPath(items: seq<Item>, path: string) {
    exists e :: e in items && e.1 == path
  }

  /** The descriptor of an alive open file. */
  ghost predicate OpenOne(k: Stock, files: seq<FileRecord>, des: nat) {
    exists e :: e in k.open && e.0 < |files| && files[e.0].descriptor == Some(des)
  }

  /** Every operand comes from the pool for it. */
  ghost predicate Drawn(k: Stock, files: seq<FileRecord>, op: Operation) {
    match op
    case MkDir(path, mode) => mode == DEFAULT_MODE && Beneath(k, path)
    case Create(path, mode) => mode == DEFAULT_MODE && Beneath(k, path)
    case MakeSymlink(target, linkPath) => (Movable(k, target) || HasPath(k.alive.dirs, target)) && Beneath(k, linkPath)
    case Hardlink(oldPath, newPath) => HasPath(k.alive.files, oldPath) && Beneath(k, newPath)
    case Rename(oldPath, newPath) => Movable(k, oldPath) && Beneath(k, newPath)
    case Remove(path) => Movable(k, path)
    case Open(path, _) => HasPath(k.closed, path)
    case Close(des) => OpenOne(k, files, des)
    case FSync(des) => OpenOne(k, files, des)
    case Read(des, size) => OpenOne(k, files, des) && size in INTERESTING_UNSIGNED
    case Write(des, srcOffset, size) => OpenOne(k, files, des) && srcOffset in INTERESTING_UNSIGNED && size in INTERESTING_UNSIGNED
  }

  /** A kind of positive weight stands for the operation. */
  predicate Weighted(weights: Weights, op: Operation) {
    exists w :: w in weights && w.1 > 0 && w.0 == KindOf(op)
  }

  /** The operation is of a kind with positive weight that can be made, and its operands are from the pools of the state. */
  ghost predicate Drew(s: State, weights: Weights, op: Operation) {
    Weighted(weights, op) && exists k :: StockOf(s, k) && Usable(k, KindOf(op)) && Drawn(k, s.files, op)
  }

  /** A path below the root whose dirname crosses at most one symlink. */
  ghost predicate Near(ns: Namespace, x: string) {
    Canonical(x) && !IsRoot(x) && '/' in x && Above(ns, x).Some? && Above(ns, x).value.level <= 1
  }

  /** What is in the pools, in terms of path resolution. */
  lemma PoolsExactly(s: State, k: Stock, e: Item)
    requires Fit(s) && StockOf(s, k)
    ensures e in k.exceptRoot <==> Near(s.ns, e.1) && ResolveDir(s.ns, e.1).Ok? && ResolveDir(s.ns, e.1).value.1 == e.0 != ROOT
    ensures e in k.closed <==> Near(s.ns, e.1) && ResolveFile(s.ns, e.1) == Ok(e.0) && e.0 < |s.files| && s.files[e.0].descriptor.None?
    ensures e in k.open <==>
              Near(s.ns, e.1) && Resolve(s.ns, e.1, false).Ok? && Resolve(s.ns, e.1, false).value.node == File(e.0)
              && e.0 < |s.files| && s.files[e.0].descriptor.Some?
    ensures e.1 in k.alive.symlinks <==> Near(s.ns, e.1) && Resolve(s.ns, e.1, false).Ok? && Resolve(s.ns, e.1, false).value.node.Symlink?
  {
    var ns := s.ns;
    FitSearchable(s);
    if Near(ns, e.1) {
      NearExists(s, e.1);
      NearFile(s, e);
    }
  }

  lemma NearExists(s: State, x: string)
    requires Fit(s) && Near(s.ns, x)
    ensures Within(s.ns, x, 2) <==> Resolve(s.ns, x, false).Ok?
    ensures Resolve(s.ns, x, false).Ok? ==> Resolve(s.ns, x, false).value.node == NodeAt(s.ns, x)
    ensures ResolveDir(s.ns, x).Ok? <==> At(s.ns, x).Some?
    ensures At(s.ns, x).Some? ==> At(s.ns, x).value.dir == ResolveDir(s.ns, x).value.1
    ensures Resolve(s.ns, x, true).Ok? ==> Resolve(s.ns, x, false).Ok?
  {
    FitSearchable(s);
    ExistsResolves(s.ns, x);
    TrailIsResolution(s.ns, x);
    FollowedIsFound(s.ns, x);
  }

  lemma NearFile(s: State, e: Item)
    requires Fit(s) && Near(s.ns, e.1)
    ensures ResolveFile(s.ns, e.1) == Ok(e.0) <==>
              Within(s.ns, e.1, 2) && (NodeAt(s.ns, e.1) == File(e.0)
                || (NodeAt(s.ns, e.1).Symlink? && LinkedFile(s.ns, NodeAt(s.ns, e.1).link) == Some(e.0)))
  {
    NearExists(s, e.1);
    if Within(s.ns, e.1, 2) {
      var found := Resolve(s.ns, e.1, false).value;
      if found.node.Symlink? {
        assert HasEntry(s.ns, Above(s.ns, e.1).value.dir, Split(e.1).1, Symlink(found.node.link));
        LinkResolves(s.ns, e.1, found.passed, found.node.link);
      } else {
        PlainResolves(s.ns, e.1);
      }
    }
  }

  /** What a removal or a rename is offered for; the source overlooks that symlinks alone would do. */
  predicate MovesOnly(kind: OperationKind) {
    kind == KRemove || kind == KRename
  }

  /**
   A kind is offered if and only if there is something to apply it to; removal and rename, if and only if
   there is something other than a symlink.
   */
  lemma UsableExactly(s: State, k: Stock, kind: OperationKind)
    requires StockOf(s, k)
    ensures !MovesOnly(kind) ==> (Usable(k, kind) <==> exists op :: KindOf(op) == kind && Drawn(k, s.files, op))
    ensures MovesOnly(kind) ==>
              (Usable(k, kind) <==> exists x :: HasPath(k.exceptRoot, x) || HasPath(k.alive.files, x))
  {
    StockRoot(s, k);
    var root: Item := (ROOT, "/");
    assert HasPath(k.alive.dirs, "/");
    assert Beneath(k, Join(root.1, ""));
    assert INTERESTING_UNSIGNED[0] == 0 && 0 in INTERESTING_UNSIGNED;
    match kind
    case KMkDir => assert Drawn(k, s.files, MkDir(Join(root.1, ""), DEFAULT_MODE));
    case KCreate => assert Drawn(k, s.files, Create(Join(root.1, ""), DEFAULT_MODE));
    case KSymlink => assert Drawn(k, s.files, MakeSymlink("/", Join(root.1, "")));
    case KHardlink => UsableHardlink(s, k);
    case KRemove => UsableMoves(k);
    case KRename => UsableMoves(k);
    case KOpen => UsableOpen(s, k);
    case _ => UsableUse(s, k, kind);
  }

  lemma UsableHardlink(s: State, k: Stock)
    requires StockOf(s, k) && Beneath(k, Join("/", ""))
    ensures Usable(k, KHardlink) <==> exists op :: KindOf(op) == KHardlink && Drawn(k, s.files, op)
  {
    if k.alive.files != [] {
      var e := k.alive.files[0];
      assert e in k.alive.files;
      assert KindOf(Hardlink(e.1, Join("/", ""))) == KHardlink && Drawn(k, s.files, Hardlink(e.1, Join("/", "")));
    }
  }

  lemma UsableMoves(k: Stock)
    ensures Usable(k, KRemove) == Usable(k, KRename)
    ensures Usable(k, KRemove) <==> exists x :: HasPath(k.exceptRoot, x) || HasPath(k.alive.files, x)
  {
    if k.exceptRoot != [] {
      assert k.exceptRoot[0] in k.exceptRoot;
      assert HasPath(k.exceptRoot, k.exceptRoot[0].1);
    }
    if k.alive.files != [] {
      assert k.alive.files[0] in k.alive.files;
      assert HasPath(k.alive.files, k.alive.files[0].1);
    }
  }

  lemma UsableOpen(s: State, k: Stock)
    requires StockOf(s, k)
    ensures Usable(k, KOpen) <==> exists op :: KindOf(op) == KOpen && Drawn(k, s.files, op)
  {
    if k.closed != [] {
      var e := k.closed[0];
      assert e in k.closed;
      assert KindOf(Open(e.1, 0)) == KOpen && Drawn(k, s.files, Open(e.1, 0));
    }
  }

  lemma UsableUse(s: State, k: Stock, kind: OperationKind)
    requires StockOf(s, k) && (kind == KClose || kind == KRead || kind == KWrite || kind == KFSync) && 0 in INTERESTING_UNSIGNED
    ensures Usable(k, kind) <==> exists op :: KindOf(op) == kind && Drawn(k, s.files, op)
  {
    if k.open != [] {
      var e := k.open[0];
      assert e in k.open;
      var des := s.files[e.0].descriptor.value;
      assert OpenOne(k, s.files, des);
      var op := if kind == KClose then Close(des) else if kind == KRead then Write(des, 0, 0) else if kind == KWrite then Read(des, 0) else FSync(des);
      assert KindOf(op) == kind && Drawn(k, s.files, op);
    }
  }

  // ----- the random choices

  /** Any path that a random choice among directories but the root, files and symlinks can give. */
  method ChooseMovable(k: Stock) returns (x: string)
    requires Usable(k, KRemove)
    ensures Movable(k, x)
  {
    var pool := Paths(k.exceptRoot) + Paths(k.alive.files) + k.alive.symlinks;
    assert pool[0] in pool;
    x :| x in pool;
    InPaths(k.exceptRoot, x);
    InPaths(k.alive.files, x);
  }

  /** Any path that a random choice among directories, files and symlinks can give. */
  method ChooseTarget(k: Stock) returns (x: string)
    requires k.alive.dirs != []
    ensures Movable(k, x) || exists e :: e in k.alive.dirs && e.1 == x
  {
    var pool := Paths(k.alive.dirs) + Paths(k.alive.files) + k.alive.symlinks;
    assert pool[0] in pool;
    x :| x in pool;
    InPaths(k.alive.dirs, x);
    InPaths(k.alive.files, x);
  }

  method ChooseItem(items: seq<Item>) returns (e: Item)
    requires items != []
    ensures e in items
  {
    assert items[0] in items;
    e :| e in items;
  }

  method ChooseNumber() returns (n: nat)
    ensures n in INTERESTING_UNSIGNED
  {
    assert INTERESTING_UNSIGNED[0] in INTERESTING_UNSIGNED;
    n :| n in INTERESTING_UNSIGNED;
  }

  method ChooseNew(ghost s: State, k: Stock, gen: NameGen, kind: OperationKind) returns (op: Operation)
    requires Fit(s) && StockOf(s, k) && Supplies(gen.used, gen.idx, s.recording)
    requires kind == KMkDir || kind == KCreate || kind == KSymlink
    modifies gen
    ensures Chosen(s, op, gen.used, gen.idx)
    ensures KindOf(op) == kind && Drawn(k, s.files, op)
  {
    StockRoot(s, k);
    var e := ChooseItem(k.alive.dirs);
    var target := ChooseTarget(k);
    ghost var before := gen.idx;
    var name := gen.Next();
    var path := Join(e.1, name);
    op := Made(kind, path, target);
    MadeChosen(s, k, e, kind, target, gen.used, before, gen.idx, name);
  }

  method ChooseHardlink(ghost s: State, k: Stock, gen: NameGen) returns (op: Operation)
    requires Fit(s) && StockOf(s, k) && Supplies(gen.used, gen.idx, s.recording) && Usable(k, KHardlink)
    modifies gen
    ensures Chosen(s, op, gen.used, gen.idx)
    ensures KindOf(op) == KHardlink && Drawn(k, s.files, op)
  {
    StockRoot(s, k);
    var f := ChooseItem(k.alive.files);
    var e := ChooseItem(k.alive.dirs);
    ghost var before := gen.idx;
    var name := gen.Next();
    op := Hardlink(f.1, Join(e.1, name));
    HardlinkChosen(s, k, f, e, gen.used, before, gen.idx, name);
  }

  /** The kind Write reads and the kind Read writes, as in the source. */
  method ChooseUse(ghost s: State, files: seq<FileRecord>, k: Stock, kind: OperationKind, ghost used: set<string>, ghost idx: nat) returns (op: Operation)
    requires Fit(s) && files == s.files && StockOf(s, k) && Supplies(used, idx, s.recording)
    requires Usable(k, kind) && (kind == KClose || kind == KRead || kind == KWrite || kind == KFSync)
    ensures Chosen(s, op, used, idx)
    ensures KindOf(op) == kind && Drawn(k, s.files, op)
  {
    var e := ChooseItem(k.open);
    var des := files[e.0].descriptor.value;
    var size := ChooseNumber();
    var offset := ChooseNumber();
    op := if kind == KClose then Close(des) else if kind == KWrite then Read(des, size) else if kind == KRead then Write(des, offset, size) else FSync(des);
    UseChosen(s, k, e, op, used, idx);
  }

  /** The call for any kind but Rename. */
  method ChooseCall(ghost s: State, fs: AbstractFS, k: Stock, gen: NameGen, kind: OperationKind) returns (op: Operation)
    requires Fit(s) && fs.View() == s && StockOf(s, k) && Supplies(gen.used, gen.idx, s.recording)
    requires Usable(k, kind) && kind != KRename
    modifies gen
    ensures Chosen(s, op, gen.used, gen.idx)
    ensures KindOf(op) == kind && Drawn(k, s.files, op)
  {
    match kind {
      case KMkDir | KCreate | KSymlink =>
        op := ChooseNew(s, k, gen, kind);
      case KHardlink =>
        op := ChooseHardlink(s, k, gen);
      case KRemove =>
        var x := ChooseMovable(k);
        op := Remove(x);
        RemoveChosen(s, k, x, gen.used, gen.idx);
      case KOpen =>
        var e := ChooseItem(k.closed);
        op := Open(e.1, |fs.descriptors|);
        OpenChosen(s, k, e, gen.used, gen.idx);
      case KClose | KRead | KWrite | KFSync =>
        op := ChooseUse(s, fs.files, k, kind, gen.used, gen.idx);
    }
  }

  /**
   Retries with another directory while the chosen one lies below what is renamed. `patience` stands for how
   often chance may pick such a directory in a row before it picks the root, which always works.
   */
  method AppendRename(fs: AbstractFS, k: Stock, gen: NameGen, patience: nat) returns (ghost op: Operation)
    requires fs.Valid() && Fit(fs.View()) && StockOf(fs.View(), k) && Supplies(gen.used, gen.idx, fs.recording)
    requires Usable(k, KRename)
    modifies fs, gen
    ensures fs.Valid() && Step(old(fs.View()), fs.View(), gen.used) && Supplies(gen.used, gen.idx, fs.recording)
    ensures fs.recording == old(fs.recording) + [op] && op.Rename? && Drawn(k, old(fs.files), op)
  {
    ghost var s := fs.View();
    var x := ChooseMovable(k);
    StockRoot(s, k);
    ghost var before := gen.idx;
    var name := gen.Next();
    var done := false;
    var left := patience;
    var e: Item := (ROOT, "/");
    op := Rename(x, Join(e.1, name));
    while !done
      invariant fs.Valid() && Generated(s.recording, gen.used, before, gen.idx, name)
      invariant !done ==> fs.View() == s
      invariant done ==> Step(s, fs.View(), gen.used) && Supplies(gen.used, gen.idx, fs.recording)
      invariant done ==> fs.recording == s.recording + [op] && op == Rename(x, Join(e.1, name)) && e in k.alive.dirs
      decreases !done, left
    {
      e := (ROOT, "/");
      if left > 0 {
        e := ChooseItem(k.alive.dirs);
      }
      op := Rename(x, Join(e.1, name));
      RenameChosen(s, k, x, e, gen.used, before, gen.idx, name);
      done := TryRename(fs, x, Join(e.1, name), gen.used, gen.idx);
      left := if left > 0 then left - 1 else 0;
    }
  }

  /** One try; the caller knows that it succeeds or is refused for the directory's place. */
  method TryRename(fs: AbstractFS, x: string, y: string, ghost used: set<string>, ghost idx: nat) returns (done: bool)
    requires fs.Valid()
    requires Chosen(fs.View(), Rename(x, y), used, idx) || Exec(fs.View(), Rename(x, y)) == Effect(fs.View(), Failed(RenameToSubdirectoryError))
    modifies fs
    ensures fs.Valid() && (Chosen(old(fs.View()), Rename(x, y), used, idx) ==> done)
    ensures if done then Step(old(fs.View()), fs.View(), used) && Supplies(used, idx, fs.recording) else fs.View() == old(fs.View())
    ensures done ==> fs.recording == old(fs.recording) + [Rename(x, y)]
  {
    ghost var s := fs.View();
    assert Exec(s, Rename(x, y)) == ExecRename(s, x, y);
    var r := fs.Rename(x, y);
    done := !(r.Failure? && r.error == RenameToSubdirectoryError);
    if done {
      ChosenStep(s, Rename(x, y), used, idx);
      ExecRecords(s, Rename(x, y));
    }
  }

  /** Makes the chosen call and unwraps it. */
  method Perform(fs: AbstractFS, op: Operation, ghost used: set<string>, ghost idx: nat)
    requires fs.Valid() && Chosen(fs.View(), op, used, idx)
    modifies fs
    ensures fs.Valid() && Step(old(fs.View()), fs.View(), used) && Supplies(used, idx, fs.recording)
    ensures fs.recording == old(fs.recording) + [Logged(old(fs.View()), op)]
  {
    ChosenStep(fs.View(), op, used, idx);
    ExecRecords(fs.View(), op);
    var r := fs.Apply(op);
    assert r.Success?;
  }

  /** The number that an Open is recorded with plays no part in the choice. */
  lemma LoggedDrawn(s: State, k: Stock, op: Operation)
    requires Drawn(k, s.files, op)
    ensures Drawn(k, s.files, Logged(s, op)) && KindOf(Logged(s, op)) == KindOf(op)
  {
  }

  lemma DrawnDrew(s: State, k: Stock, weights: Weights, w: (OperationKind, nat), op: Operation)
    requires StockOf(s, k) && w in weights && w.1 > 0 && w.0 == KindOf(op) && Usable(k, w.0) && Drawn(k, s.files, op)
    ensures Drew(s, weights, op)
  {
  }

  lemma LastOf(ops: seq<Operation>, op: Operation)
    ensures var all := ops + [op]; all[|all| - 1] == op && all[..|all| - 1] == ops
  {
  }

  predicate AllWeighted(weights: Weights, ops: seq<Operation>) {
    forall op :: op in ops ==> Weighted(weights, op)
  }

  lemma WeightedSnoc(weights: Weights, ops: seq<Operation>)
    requires ops != [] && AllWeighted(weights, ops[..|ops| - 1]) && Weighted(weights, ops[|ops| - 1])
    ensures AllWeighted(weights, ops)
  {
    assert ops == ops[..|ops| - 1] + [ops[|ops| - 1]];
  }

  // ----- whole workloads

  /**
   Appends one random operation: whatever is chosen, exactly one operation succeeds and is recorded, of a kind
   with positive weight and with operands from the pools for them.
   */
  method AppendOne(fs: AbstractFS, weights: Weights, gen: NameGen, patience: nat)
    requires fs.Valid() && Fit(fs.View()) && Choosable(fs.View(), weights) && Supplies(gen.used, gen.idx, fs.recording)
    modifies fs, gen
    ensures fs.Valid() && Step(old(fs.View()), fs.View(), gen.used) && Supplies(gen.used, gen.idx, fs.recording)
    ensures Fit(fs.View()) && |fs.recording| == |old(fs.recording)| + 1
    ensures fs.recording[..|fs.recording| - 1] == old(fs.recording)
    ensures Drew(old(fs.View()), weights, fs.recording[|fs.recording| - 1])
    ensures Reproduced(old(fs.View())) ==> Reproduced(fs.View())
  {
    ghost var s := fs.View();
    var k := TakeStock(fs);
    var ops := Retained(k, weights);
    assert exists w :: w in ops && w.1 > 0 by {
      var w :| w in weights && w.1 > 0 && Usable(k, w.0);
      assert w in ops;
    }
    var w :| w in ops && w.1 > 0;
    ghost var made: Operation;
    if w.0 == KRename {
      made := AppendRename(fs, k, gen, patience);
    } else {
      var op := ChooseCall(s, fs, k, gen, w.0);
      Perform(fs, op, gen.used, gen.idx);
      LoggedDrawn(s, k, op);
      made := Logged(s, op);
    }
    LastOf(s.recording, made);
    DrawnDrew(s, k, weights, w, made);
    StepKeeps(s, fs.View(), gen.used);
  }

  lemma FreshSupply()
    ensures Supplies({}, 0, [])
  {
    forall i: nat
      ensures FreshName([], Decimal(i))
    {
      DecimalProper(i);
    }
  }

  /** A new workload of exactly the wanted length, which replays to itself and keeps the discipline. */
  method GenerateNew(size: nat, weights: Weights, patience: nat) returns (workload: seq<Operation>)
    requires exists w :: w in weights && w.1 > 0 && (w.0 == KMkDir || w.0 == KCreate || w.0 == KSymlink)
    ensures |workload| == size
    ensures Disciplined(workload) && LifeCycle(workload)
    ensures Replay(FRESH, workload).status.Done? && Replay(FRESH, workload).state.recording == workload
    ensures AllWeighted(weights, workload)
  {
    var fs := new AbstractFS();
    var gen := new NameGen({});
    FreshFit();
    FreshSupply();
    var i := 0;
    while i < size
      invariant 0 <= i <= size && fresh(fs) && fresh(gen)
      invariant fs.Valid() && Fit(fs.View()) && Reproduced(fs.View()) && |fs.recording| == i
      invariant Supplies(gen.used, gen.idx, fs.recording)
      invariant AllWeighted(weights, fs.recording)
    {
      AlwaysChoosable(fs.View(), weights);
      AppendOne(fs, weights, gen, patience);
      WeightedSnoc(weights, fs.recording);
      i := i + 1;
    }
    return fs.recording;
  }
}

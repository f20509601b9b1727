/**
 The state of the abstract filesystem and what each operation does to it
 (diffuzzer/src/abstract_fs/fs.rs, operation.rs, workload.rs), as functions. The class in AbstractFS.dfy
 carries the imperative form and is proved to do exactly this.
 */
module Operations {
  import opened Wrappers
  import opened Pathname
  import opened Nodes
  import opened Resolution
  import opened Contents

  /** Names of mode flags; they have no effect. */
  type Mode = seq<string>

  datatype Operation =
    | MkDir(path: string, mode: Mode)
    | Create(path: string, mode: Mode)
    | Remove(path: string)
    | Hardlink(oldPath: string, newPath: string)
    | Rename(oldPath: string, newPath: string)
    | Open(path: string, des: nat)
    | Close(des: nat)
    | Read(des: nat, size: nat)
    | Write(des: nat, srcOffset: nat, size: nat)
    | FSync(des: nat)
    | MakeSymlink(target: string, linkPath: string)

  datatype FileRecord = FileRecord(descriptor: Option<nat>, content: seq<SourceSlice>)

  datatype Descriptor = Descriptor(file: nat, offset: nat)

  datatype State = State(
    ns: Namespace,
    files: seq<FileRecord>,
    descriptors: seq<Descriptor>,
    recording: seq<Operation>)

  /** The path whose last name an operation adds. */
  function NewPath(op: Operation): Option<string> {
    match op
    case MkDir(path, _) => Some(path)
    case Create(path, _) => Some(path)
    case Hardlink(_, newPath) => Some(newPath)
    case Rename(_, newPath) => Some(newPath)
    case MakeSymlink(_, linkPath) => Some(linkPath)
    case _ => None
  }

  /** How a call ends. */
  datatype Status = Done | Failed(error: FsError) | NoReturn

  datatype Effect = Effect(state: State, status: Status)

  const FRESH := State(Namespace([map[]], []), [], [], [])

  function Recorded(s: State, op: Operation): State {
    s.(recording := s.recording + [op])
  }

  /** The end of a call that needed a value it did not get. */
  function Missing<T>(s: State, o: Outcome<T>): Effect
    requires !o.Ok?
  {
    Effect(s, if o.Err? then Failed(o.error) else NoReturn)
  }

  /** The directory that holds, or would hold, the last name of a path. */
  ghost function ParentOf(ns: Namespace, path: string): Outcome<nat> {
    if '/' !in path then Stuck
    else
      match ResolveDir(ns, Split(path).0)
      case Err(e) => Err(e)
      case Stuck => Stuck
      case Ok((_, d)) => if d < |ns.dirs| then Ok(d) else Stuck
  }

  /** The directory for a new entry, which must not exist yet. */
  ghost function VacantParent(ns: Namespace, path: string): Outcome<nat> {
    var p := ParentOf(ns, path);
    if p.Ok? && Split(path).1 in ns.dirs[p.value] then Err(NameAlreadyExists) else p
  }

  ghost function ExecMkDir(s: State, path: string, mode: Mode): Effect {
    var p := VacantParent(s.ns, path);
    if !p.Ok? then Missing(s, p)
    else
      var grown := s.ns.(dirs := s.ns.dirs + [map[]]);
      Effect(Recorded(s.(ns := Insert(grown, p.value, Split(path).1, Dir(|s.ns.dirs|))), MkDir(path, mode)), Done)
  }

  ghost function ExecCreate(s: State, path: string, mode: Mode): Effect {
    var p := VacantParent(s.ns, path);
    if !p.Ok? then Missing(s, p)
    else
      var ns := Insert(s.ns, p.value, Split(path).1, File(|s.files|));
      Effect(Recorded(s.(ns := ns, files := s.files + [FileRecord(None, [])]), Create(path, mode)), Done)
  }

  ghost function ExecSymlink(s: State, target: string, linkPath: string): Effect {
    var p := VacantParent(s.ns, linkPath);
    if !p.Ok? then Missing(s, p)
    else
      var grown := s.ns.(links := s.ns.links + [target]);
      Effect(Recorded(s.(ns := Insert(grown, p.value, Split(linkPath).1, Symlink(|s.ns.links|))), MakeSymlink(target, linkPath)), Done)
  }

  ghost function ExecRemove(s: State, path: string): Effect {
    if IsRoot(path) then Effect(s, Failed(RootRemovalForbidden))
    else
      var p := ParentOf(s.ns, path);
      if !p.Ok? then Missing(s, p)
      else if Split(path).1 !in s.ns.dirs[p.value] then Effect(s, Failed(NotFound))
      else Effect(Recorded(s.(ns := Delete(s.ns, p.value, Split(path).1)), Remove(path)), Done)
  }

  ghost function ExecHardlink(s: State, oldPath: string, newPath: string): Effect {
    var p := ParentOf(s.ns, oldPath);
    if !p.Ok? then Missing(s, p)
    else if Split(oldPath).1 in s.ns.dirs[p.value] && s.ns.dirs[p.value][Split(oldPath).1].Symlink? then
      Effect(s, Failed(HardlinkToSymlinkForbidden))
    else
      var f := ResolveFile(s.ns, oldPath);
      if !f.Ok? then Missing(s, f)
      else
        var q := VacantParent(s.ns, newPath);
        if !q.Ok? then Missing(s, q)
        else
          Effect(Recorded(s.(ns := Insert(s.ns, q.value, Split(newPath).1, File(f.value))), Hardlink(oldPath, newPath)), Done)
  }

  /** All that rename checks before it changes anything: where the node goes, and which node it is. */
  ghost function RenameChecks(ns: Namespace, oldPath: string, newPath: string): Outcome<(nat, Node)> {
    var target := ResolveDir(ns, newPath);
    if target.Stuck? || (target.Ok? && target.value.1 >= |ns.dirs|) then Stuck
    else if target.Ok? && ns.dirs[target.value.1] != map[] then Err(DirNotEmpty)
    else
      match Resolve(ns, oldPath, false)
      case Err(e) => Err(e)
      case Stuck => Stuck
      case Ok(found) =>
        if '/' !in newPath then Stuck
        else
          match ResolveDir(ns, Split(newPath).0)
          case Err(e) => Err(e)
          case Stuck => Stuck
          case Ok((passed, parent)) =>
            if found.node.Dir? && (found.node.dir in passed || parent == found.node.dir) then Err(RenameToSubdirectoryError)
            else if parent < |ns.dirs| then Ok((parent, found.node))
            else Stuck
  }

  /** Inserts the new entry, resolves the old parent in the changed tree, removes the old entry. */
  ghost function ExecRename(s: State, oldPath: string, newPath: string): Effect {
    var c := RenameChecks(s.ns, oldPath, newPath);
    if !c.Ok? then Missing(s, c)
    else
      var s1 := s.(ns := Insert(s.ns, c.value.0, Split(newPath).1, c.value.1));
      var p := ParentOf(s1.ns, oldPath);
      if !p.Ok? then Missing(s1, p)
      else Effect(Recorded(s1.(ns := Delete(s1.ns, p.value, Split(oldPath).1)), Rename(oldPath, newPath)), Done)
  }

  ghost function ExecOpen(s: State, path: string): Effect {
    var f := ResolveFile(s.ns, path);
    if !f.Ok? then Missing(s, f)
    else if f.value >= |s.files| then Effect(s, NoReturn)
    else if s.files[f.value].descriptor.Some? then Effect(s, Failed(FileAlreadyOpened))
    else
      var des := |s.descriptors|;
      var files := s.files[f.value := s.files[f.value].(descriptor := Some(des))];
      Effect(Recorded(s.(files := files, descriptors := s.descriptors + [Descriptor(f.value, 0)]), Open(path, des)), Done)
  }

  /** The file of an open descriptor. */
  function FileOf(s: State, des: nat): Outcome<nat> {
    if des >= |s.descriptors| then Err(BadDescriptor)
    else if s.descriptors[des].file >= |s.files| then Stuck
    else if s.files[s.descriptors[des].file].descriptor != Some(des) then Err(DescriptorWasClosed)
    else Ok(s.descriptors[des].file)
  }

  function ExecClose(s: State, des: nat): Effect {
    var f := FileOf(s, des);
    if !f.Ok? then Missing(s, f)
    else
      Effect(Recorded(s.(files := s.files[f.value := s.files[f.value].(descriptor := None)]), Close(des)), Done)
  }

  /** What a read through an open descriptor returns. */
  function ReadResult(s: State, des: nat, size: nat): seq<SourceSlice>
    requires FileOf(s, des).Ok?
  {
    ReadSlices(s.files[FileOf(s, des).value].content, s.descriptors[des].offset, size)
  }

  function Advanced(s: State, des: nat, n: nat): seq<Descriptor>
    requires des < |s.descriptors|
  {
    s.descriptors[des := s.descriptors[des].(offset := s.descriptors[des].offset + n)]
  }

  /** The source checks the new offset against the size and panics when it is past the end. */
  function ExecRead(s: State, des: nat, size: nat): Effect {
    var f := FileOf(s, des);
    if !f.Ok? then Missing(s, f)
    else
      var content := s.files[f.value].content;
      var offset := s.descriptors[des].offset;
      if offset > TotalSize(content) then Effect(s, Failed(ContentFailure))
      else
        var n := TotalSize(ReadResult(s, des, size));
        if offset + n > TotalSize(content) then Effect(s, NoReturn)
        else Effect(Recorded(s.(descriptors := Advanced(s, des, n)), Read(des, size)), Done)
  }

  function ExecWrite(s: State, des: nat, srcOffset: nat, size: nat): Effect {
    var f := FileOf(s, des);
    if !f.Ok? then Missing(s, f)
    else
      var content := s.files[f.value].content;
      var offset := s.descriptors[des].offset;
      if offset > TotalSize(content) then Effect(s, Failed(ContentFailure))
      else
        var written := WriteSlices(content, srcOffset, offset, size);
        if offset + size > TotalSize(written) then Effect(s, NoReturn)
        else
          var files := s.files[f.value := s.files[f.value].(content := written)];
          Effect(Recorded(s.(files := files, descriptors := Advanced(s, des, size)), Write(des, srcOffset, size)), Done)
  }

  function ExecFSync(s: State, des: nat): Effect {
    var f := FileOf(s, des);
    if !f.Ok? then Missing(s, f) else Effect(Recorded(s, FSync(des)), Done)
  }

  /** One call; the descriptor number in an Open is not looked at. */
  ghost function Exec(s: State, op: Operation): Effect {
    match op
    case MkDir(path, mode) => ExecMkDir(s, path, mode)
    case Create(path, mode) => ExecCreate(s, path, mode)
    case Remove(path) => ExecRemove(s, path)
    case Hardlink(oldPath, newPath) => ExecHardlink(s, oldPath, newPath)
    case Rename(oldPath, newPath) => ExecRename(s, oldPath, newPath)
    case Open(path, _) => ExecOpen(s, path)
    case Close(des) => ExecClose(s, des)
    case Read(des, size) => ExecRead(s, des, size)
    case Write(des, srcOffset, size) => ExecWrite(s, des, srcOffset, size)
    case FSync(des) => ExecFSync(s, des)
    case MakeSymlink(target, linkPath) => ExecSymlink(s, target, linkPath)
  }

  /** Runs the operations in order and stops at the first that does not succeed. */
  ghost function Replay(s: State, ops: seq<Operation>): Effect
    decreases |ops|
  {
    if ops == [] then Effect(s, Done)
    else
      var e := Exec(s, ops[0]);
      if e.status.Done? then Replay(e.state, ops[1..]) else e
  }

  // ----- replaying in pieces

  lemma {:induction false} ReplayConcat(s: State, a: seq<Operation>, b: seq<Operation>)
    ensures Replay(s, a + b) == if Replay(s, a).status.Done? then Replay(Replay(s, a).state, b) else Replay(s, a)
    decreases |a|
  {
    if a == [] {
      assert a + b == b;
    } else {
      assert (a + b)[1..] == a[1..] + b;
      var e := Exec(s, a[0]);
      if e.status.Done? {
        ReplayConcat(e.state, a[1..], b);
      }
    }
  }

  lemma ReplaySnoc(s: State, a: seq<Operation>, op: Operation)
    ensures Replay(s, a + [op]) == if Replay(s, a).status.Done? then Exec(Replay(s, a).state, op) else Replay(s, a)
  {
    ReplayConcat(s, a, [op]);
    assert [op][1..] == [];
    if Replay(s, a).status.Done? {
      var t := Replay(s, a).state;
      var e := Exec(t, op);
      assert Replay(t, [op]) == if e.status.Done? then Replay(e.state, [op][1..]) else e;
      assert e.status.Done? ==> e == Effect(e.state, Done);
    }
  }
}

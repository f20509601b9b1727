/**
 What each namespace and descriptor call promises (diffuzzer/src/abstract_fs/fs.rs): when it succeeds, which
 error it gives when it does not, and exactly which entries, files and descriptors it changes. Stated in terms
 of path resolution and directory entries only.
 */
module Contracts {
  import opened Wrappers
  import opened Pathname
  import opened Nodes
  import opened Resolution
  import opened Forest
  import opened Contents
  import opened Operations
  import opened Renaming
  import opened Invariants

  // ----- entries

  ghost predicate Taken(ns: Namespace, d: nat, n: Name) {
    exists node :: HasEntry(ns, d, n, node)
  }

  /** One entry more. */
  ghost predicate AddedOnly(ns: Namespace, ns': Namespace, d: nat, n: Name, node: Node) {
    forall a: nat, m, x :: HasEntry(ns', a, m, x) <==> HasEntry(ns, a, m, x) || (a == d && m == n && x == node)
  }

  /** One entry fewer. */
  ghost predicate RemovedOnly(ns: Namespace, ns': Namespace, d: nat, n: Name) {
    forall a: nat, m, x :: HasEntry(ns', a, m, x) <==> HasEntry(ns, a, m, x) && !(a == d && m == n)
  }

  /** The entry n of p is the given node, the entry m of q is gone, and all others are as before. */
  ghost predicate MovedOnly(ns: Namespace, ns': Namespace, p: nat, n: Name, q: nat, m: Name, node: Node) {
    forall a: nat, k, x :: HasEntry(ns', a, k, x) <==>
      !(a == q && k == m) && if a == p && k == n then x == node else HasEntry(ns, a, k, x)
  }

  /** Nothing but the namespace changes, and the call is recorded. */
  predicate OnlyNames(s: State, t: State, op: Operation) {
    t.files == s.files && t.descriptors == s.descriptors && t.recording == s.recording + [op]
  }

  /** Nothing but files and descriptors changes, and the call is recorded. */
  predicate OnlyData(s: State, t: State, op: Operation) {
    t.ns == s.ns && t.recording == s.recording + [op]
  }

  ghost predicate ParentIs(ns: Namespace, path: string, d: nat) {
    '/' in path && ResolveDir(ns, Split(path).0).Ok? && ResolveDir(ns, Split(path).0).value.1 == d
  }

  // ----- creation

  /** How a call ends that makes an entry at a path. */
  ghost function RoomStatus(ns: Namespace, path: string): Status {
    if '/' !in path then NoReturn
    else
      match ResolveDir(ns, Split(path).0)
      case Stuck => NoReturn
      case Err(e) => Failed(e)
      case Ok((_, d)) => if Taken(ns, d, Split(path).1) then Failed(NameAlreadyExists) else Done
  }

  lemma RoomIs(ns: Namespace, files: nat, path: string)
    requires |ns.dirs| > 0 && InRange(ns, files)
    ensures var p := VacantParent(ns, path);
            RoomStatus(ns, path) == if p.Ok? then Done else if p.Err? then Failed(p.error) else NoReturn
    ensures VacantParent(ns, path).Ok? ==> ParentIs(ns, path, VacantParent(ns, path).value)
  {
    if '/' in path && ResolveDir(ns, Split(path).0).Ok? {
      ResolveInRange(ns, files, Split(path).0);
      var d, n := ResolveDir(ns, Split(path).0).value.1, Split(path).1;
      if n in ns.dirs[d] { assert HasEntry(ns, d, n, ns.dirs[d][n]); }
    }
  }

  lemma InsertOnly(ns: Namespace, grown: Namespace, d: nat, n: Name, node: Node)
    requires d < |ns.dirs| && n !in ns.dirs[d] && (grown.dirs == ns.dirs || grown.dirs == ns.dirs + [map[]])
    ensures AddedOnly(ns, Insert(grown, d, n, node), d, n, node)
  {
    var ns' := Insert(grown, d, n, node);
    forall a: nat, m, x
      ensures HasEntry(ns', a, m, x) <==> HasEntry(ns, a, m, x) || (a == d && m == n && x == node)
    {
    }
  }

  /** A new, empty directory under a new number. */
  lemma MkDirContract(s: State, path: string, mode: Mode)
    requires |s.ns.dirs| > 0 && InRange(s.ns, |s.files|)
    ensures var e := ExecMkDir(s, path, mode);
            && e.status == RoomStatus(s.ns, path)
            && (!e.status.Done? ==> e.state == s)
            && (e.status.Done? ==>
                  && OnlyNames(s, e.state, MkDir(path, mode))
                  && |e.state.ns.dirs| == |s.ns.dirs| + 1 && e.state.ns.links == s.ns.links
                  && exists d :: ParentIs(s.ns, path, d) && AddedOnly(s.ns, e.state.ns, d, Split(path).1, Dir(|s.ns.dirs|)))
  {
    RoomIs(s.ns, |s.files|, path);
    var p := VacantParent(s.ns, path);
    if p.Ok? {
      InsertOnly(s.ns, s.ns.(dirs := s.ns.dirs + [map[]]), p.value, Split(path).1, Dir(|s.ns.dirs|));
      assert ParentIs(s.ns, path, p.value);
    }
  }

  /** A new file under a new number, empty and not open. */
  lemma CreateContract(s: State, path: string, mode: Mode)
    requires |s.ns.dirs| > 0 && InRange(s.ns, |s.files|)
    ensures var e := ExecCreate(s, path, mode);
            && e.status == RoomStatus(s.ns, path)
            && (!e.status.Done? ==> e.state == s)
            && (e.status.Done? ==>
                  && e.state.files == s.files + [FileRecord(None, [])] && e.state.descriptors == s.descriptors
                  && e.state.recording == s.recording + [Create(path, mode)]
                  && |e.state.ns.dirs| == |s.ns.dirs| && e.state.ns.links == s.ns.links
                  && exists d :: ParentIs(s.ns, path, d) && AddedOnly(s.ns, e.state.ns, d, Split(path).1, File(|s.files|)))
  {
    RoomIs(s.ns, |s.files|, path);
    var p := VacantParent(s.ns, path);
    if p.Ok? {
      InsertOnly(s.ns, s.ns, p.value, Split(path).1, File(|s.files|));
      assert ParentIs(s.ns, path, p.value);
    }
  }

  /** A new symlink under a new number, to the very text given, whether that leads anywhere or not. */
  lemma SymlinkContract(s: State, target: string, linkPath: string)
    requires |s.ns.dirs| > 0 && InRange(s.ns, |s.files|)
    ensures var e := ExecSymlink(s, target, linkPath);
            && e.status == RoomStatus(s.ns, linkPath)
            && (!e.status.Done? ==> e.state == s)
            && (e.status.Done? ==>
                  && OnlyNames(s, e.state, MakeSymlink(target, linkPath))
                  && |e.state.ns.dirs| == |s.ns.dirs| && e.state.ns.links == s.ns.links + [target]
                  && exists d :: ParentIs(s.ns, linkPath, d) && AddedOnly(s.ns, e.state.ns, d, Split(linkPath).1, Symlink(|s.ns.links|)))
  {
    RoomIs(s.ns, |s.files|, linkPath);
    var p := VacantParent(s.ns, linkPath);
    if p.Ok? {
      InsertOnly(s.ns, s.ns.(links := s.ns.links + [target]), p.value, Split(linkPath).1, Symlink(|s.ns.links|));
      assert ParentIs(s.ns, linkPath, p.value);
    }
  }

  /** How a hardlink ends; the old path is looked at first, and must not name a symlink. */
  ghost function HardlinkStatus(ns: Namespace, oldPath: string, newPath: string): Status {
    if '/' !in oldPath then NoReturn
    else
      match ResolveDir(ns, Split(oldPath).0)
      case Stuck => NoReturn
      case Err(e) => Failed(e)
      case Ok((_, d)) =>
        if exists i :: HasEntry(ns, d, Split(oldPath).1, Symlink(i)) then Failed(HardlinkToSymlinkForbidden)
        else
          match Resolve(ns, oldPath, true)
          case Stuck => NoReturn
          case Err(e) => Failed(e)
          case Ok(found) => if found.node.File? then RoomStatus(ns, newPath) else Failed(NotAFile)
  }

  lemma HardlinkStatusIs(s: State, oldPath: string, newPath: string)
    requires |s.ns.dirs| > 0 && InRange(s.ns, |s.files|)
    ensures ExecHardlink(s, oldPath, newPath).status == HardlinkStatus(s.ns, oldPath, newPath)
  {
    RoomIs(s.ns, |s.files|, newPath);
    if '/' in oldPath && ResolveDir(s.ns, Split(oldPath).0).Ok? {
      ResolveInRange(s.ns, |s.files|, Split(oldPath).0);
      var d, n := ResolveDir(s.ns, Split(oldPath).0).value.1, Split(oldPath).1;
      if n in s.ns.dirs[d] && s.ns.dirs[d][n].Symlink? {
        assert HasEntry(s.ns, d, n, Symlink(s.ns.dirs[d][n].link));
      }
    }
  }

  /** Another entry for the file that the old path leads to, and no other change. */
  lemma HardlinkContract(s: State, oldPath: string, newPath: string)
    requires |s.ns.dirs| > 0 && InRange(s.ns, |s.files|)
    ensures var e := ExecHardlink(s, oldPath, newPath);
            && e.status == HardlinkStatus(s.ns, oldPath, newPath)
            && (!e.status.Done? ==> e.state == s)
            && (e.status.Done? ==>
                  && OnlyNames(s, e.state, Hardlink(oldPath, newPath))
                  && |e.state.ns.dirs| == |s.ns.dirs| && e.state.ns.links == s.ns.links
                  && Resolve(s.ns, oldPath, true).Ok? && Resolve(s.ns, oldPath, true).value.node.File?
                  && exists d :: ParentIs(s.ns, newPath, d) && AddedOnly(s.ns, e.state.ns, d, Split(newPath).1, Resolve(s.ns, oldPath, true).value.node))
  {
    HardlinkStatusIs(s, oldPath, newPath);
    if ExecHardlink(s, oldPath, newPath).status.Done? {
      RoomIs(s.ns, |s.files|, newPath);
      HardlinkInserts(s, oldPath, newPath);
      var p := VacantParent(s.ns, newPath);
      InsertOnly(s.ns, s.ns, p.value, Split(newPath).1, File(ResolveFile(s.ns, oldPath).value));
      assert ParentIs(s.ns, newPath, p.value);
    }
  }

  // ----- removal

  ghost function RemoveStatus(ns: Namespace, path: string): Status {
    if path == "/" then Failed(RootRemovalForbidden)
    else if '/' !in path then NoReturn
    else
      match ResolveDir(ns, Split(path).0)
      case Stuck => NoReturn
      case Err(e) => Failed(e)
      case Ok((_, d)) => if Taken(ns, d, Split(path).1) then Done else Failed(NotFound)
  }

  lemma DeleteOnly(ns: Namespace, d: nat, n: Name)
    requires d < |ns.dirs|
    ensures RemovedOnly(ns, Delete(ns, d, n), d, n)
  {
    var ns' := Delete(ns, d, n);
    forall a: nat, m, x
      ensures HasEntry(ns', a, m, x) <==> HasEntry(ns, a, m, x) && !(a == d && m == n)
    {
    }
  }

  /** Exactly the entry that the path names is gone, whatever it was for; no directory, file or symlink is. */
  lemma RemoveContract(s: State, path: string)
    requires |s.ns.dirs| > 0 && InRange(s.ns, |s.files|)
    ensures var e := ExecRemove(s, path);
            && e.status == RemoveStatus(s.ns, path)
            && (!e.status.Done? ==> e.state == s)
            && (e.status.Done? ==>
                  && OnlyNames(s, e.state, Remove(path))
                  && |e.state.ns.dirs| == |s.ns.dirs| && e.state.ns.links == s.ns.links
                  && Entries(e.state.ns.dirs) + 1 == Entries(s.ns.dirs)
                  && exists d :: ParentIs(s.ns, path, d) && RemovedOnly(s.ns, e.state.ns, d, Split(path).1))
  {
    if path != "/" && '/' in path && ResolveDir(s.ns, Split(path).0).Ok? {
      ResolveInRange(s.ns, |s.files|, Split(path).0);
      var d, n := ResolveDir(s.ns, Split(path).0).value.1, Split(path).1;
      if n in s.ns.dirs[d] {
        assert HasEntry(s.ns, d, n, s.ns.dirs[d][n]);
        DeleteOnly(s.ns, d, n);
        DeleteCount(s.ns, d, n);
        assert ParentIs(s.ns, path, d);
      }
    }
  }

  // ----- rename

  /** The directory that a path leads to has entries. */
  ghost predicate Filled(ns: Namespace, path: string) {
    ResolveDir(ns, path).Ok? && exists n :: Taken(ns, ResolveDir(ns, path).value.1, n)
  }

  /** A directory would come to lie at or below itself. */
  ghost predicate BelowItself(node: Node, parent: (seq<nat>, nat)) {
    node.Dir? && (node.dir in parent.0 || node.dir == parent.1)
  }

  /** How a rename ends, condition by condition, in the order in which they are checked. */
  ghost function RenameStatus(ns: Namespace, oldPath: string, newPath: string): Status {
    if ResolveDir(ns, newPath).Stuck? then NoReturn
    else if Filled(ns, newPath) then Failed(DirNotEmpty)
    else
      match Resolve(ns, oldPath, false)
      case Stuck => NoReturn
      case Err(e) => Failed(e)
      case Ok(found) =>
        if '/' !in newPath then NoReturn
        else
          match ResolveDir(ns, Split(newPath).0)
          case Stuck => NoReturn
          case Err(e) => Failed(e)
          case Ok(parent) =>
            if BelowItself(found.node, parent) then Failed(RenameToSubdirectoryError)
            else if DoubledBeforeName(oldPath) then Failed(InvalidPath)
            else Done
  }

  lemma FilledIs(ns: Namespace, files: nat, path: string)
    requires |ns.dirs| > 0 && InRange(ns, files) && ResolveDir(ns, path).Ok?
    ensures ResolveDir(ns, path).value.1 < |ns.dirs|
    ensures Filled(ns, path) <==> ns.dirs[ResolveDir(ns, path).value.1] != map[]
  {
    ResolveInRange(ns, files, path);
    var d := ResolveDir(ns, path).value.1;
    if ns.dirs[d] != map[] {
      var n :| n in ns.dirs[d];
      assert HasEntry(ns, d, n, ns.dirs[d][n]);
      assert Taken(ns, d, n);
    }
  }

  lemma ChecksAre(ns: Namespace, files: nat, oldPath: string, newPath: string)
    requires |ns.dirs| > 0 && InRange(ns, files)
    ensures var c := RenameChecks(ns, oldPath, newPath);
            RenameStatus(ns, oldPath, newPath) ==
              if c.Stuck? then NoReturn else if c.Err? then Failed(c.error)
              else if DoubledBeforeName(oldPath) then Failed(InvalidPath) else Done
    ensures var c := RenameChecks(ns, oldPath, newPath);
            c.Ok? ==> ParentIs(ns, newPath, c.value.0) && Resolve(ns, oldPath, false).Ok? && c.value.1 == Resolve(ns, oldPath, false).value.node
  {
    if ResolveDir(ns, newPath).Ok? { FilledIs(ns, files, newPath); }
    if '/' in newPath { ResolveInRange(ns, files, Split(newPath).0); }
  }

  lemma InsertDeleteOnly(ns: Namespace, p: nat, n: Name, q: nat, m: Name, node: Node)
    requires p < |ns.dirs| && q < |ns.dirs|
    ensures MovedOnly(ns, Delete(Insert(ns, p, n, node), q, m), p, n, q, m, node)
  {
    var ns' := Delete(Insert(ns, p, n, node), q, m);
    forall a: nat, k, x
      ensures HasEntry(ns', a, k, x) <==> !(a == q && k == m) && if a == p && k == n then x == node else HasEntry(ns, a, k, x)
    {
    }
  }

  /**
   A rename ends as said, and when it succeeds it moves one entry: an existing destination is replaced, be it a
   file, a symlink or an empty directory, the old entry is gone, and every other entry is as before.
   */
  lemma RenameContract(s: State, oldPath: string, newPath: string)
    requires |s.ns.dirs| > 0 && InRange(s.ns, |s.files|) && RootFree(s.ns) && OneParent(s.ns)
    ensures var e := ExecRename(s, oldPath, newPath);
            && e.status == RenameStatus(s.ns, oldPath, newPath)
            && (e.status.Done? ==>
                  && OnlyNames(s, e.state, Rename(oldPath, newPath))
                  && |e.state.ns.dirs| == |s.ns.dirs| && e.state.ns.links == s.ns.links
                  && Resolve(s.ns, oldPath, false).Ok?
                  && exists p, q :: ParentIs(s.ns, newPath, p) && ParentIs(s.ns, oldPath, q)
                       && MovedOnly(s.ns, e.state.ns, p, Split(newPath).1, q, Split(oldPath).1, Resolve(s.ns, oldPath, false).value.node))
  {
    ChecksAre(s.ns, |s.files|, oldPath, newPath);
    var c := RenameChecks(s.ns, oldPath, newPath);
    if c.Ok? {
      RenameMoves(s, oldPath, newPath);
      if !DoubledBeforeName(oldPath) {
        var q := ParentOf(s.ns, oldPath).value;
        InsertDeleteOnly(s.ns, c.value.0, Split(newPath).1, q, Split(oldPath).1, c.value.1);
        assert ParentIs(s.ns, oldPath, q) && ParentIs(s.ns, newPath, c.value.0);
      }
    }
  }

  /** When a rename succeeds, in one condition. */
  lemma RenameSucceedsExactly(s: State, oldPath: string, newPath: string)
    requires |s.ns.dirs| > 0 && InRange(s.ns, |s.files|) && RootFree(s.ns) && OneParent(s.ns)
    ensures ExecRename(s, oldPath, newPath).status.Done? <==>
              && Resolve(s.ns, oldPath, false).Ok?
              && !ResolveDir(s.ns, newPath).Stuck? && !Filled(s.ns, newPath)
              && '/' in newPath && ResolveDir(s.ns, Split(newPath).0).Ok?
              && !BelowItself(Resolve(s.ns, oldPath, false).value.node, ResolveDir(s.ns, Split(newPath).0).value)
              && !DoubledBeforeName(oldPath)
  {
    RenameContract(s, oldPath, newPath);
  }

  // ----- descriptors

  /** How a call on a descriptor ends: numbers not given out yet, then closed ones. */
  function UseStatus(recording: seq<Operation>, des: nat): Status {
    if des >= Opens(recording) then Failed(BadDescriptor)
    else if Close(des) in recording then Failed(DescriptorWasClosed)
    else Done
  }

  lemma FileOfIs(s: State, des: nat)
    requires DataInv(s)
    ensures match FileOf(s, des)
            case Ok(f) => UseStatus(s.recording, des) == Done && f < |s.files| && s.descriptors[des].file == f && s.files[f].descriptor == Some(des)
            case Err(e) => UseStatus(s.recording, des) == Failed(e)
            case Stuck => false
  {
  }

  /** A file that is not open gets the next descriptor, at offset zero. */
  lemma OpenContract(s: State, path: string)
    requires |s.ns.dirs| > 0 && InRange(s.ns, |s.files|)
    ensures var e := ExecOpen(s, path);
            match Resolve(s.ns, path, true)
            case Stuck => e == Effect(s, NoReturn)
            case Err(error) => e == Effect(s, Failed(error))
            case Ok(found) =>
              if !found.node.File? then e == Effect(s, Failed(NotAFile))
              else
                var f := found.node.file;
                && f < |s.files|
                && if s.files[f].descriptor.Some? then e == Effect(s, Failed(FileAlreadyOpened))
                   else
                     && e.status == Done && OnlyData(s, e.state, Open(path, |s.descriptors|))
                     && e.state.descriptors == s.descriptors + [Descriptor(f, 0)]
                     && e.state.files == s.files[f := FileRecord(Some(|s.descriptors|), s.files[f].content)]
  {
    ResolveInRange(s.ns, |s.files|, path);
  }

  /** The file is not open any more, and may be opened again; its content stays. */
  lemma CloseContract(s: State, des: nat)
    requires DataInv(s)
    ensures var e := ExecClose(s, des);
            && e.status == UseStatus(s.recording, des)
            && (!e.status.Done? ==> e.state == s)
            && (e.status.Done? ==>
                  && des < |s.descriptors| && s.descriptors[des].file < |s.files|
                  && OnlyData(s, e.state, Close(des)) && e.state.descriptors == s.descriptors
                  && var f := s.descriptors[des].file;
                     e.state.files == s.files[f := FileRecord(None, s.files[f].content)])
  {
    FileOfIs(s, des);
  }

  lemma FSyncContract(s: State, des: nat)
    requires DataInv(s)
    ensures var e := ExecFSync(s, des);
            && e.status == UseStatus(s.recording, des)
            && e.state == if e.status.Done? then s.(recording := s.recording + [FSync(des)]) else s
  {
    FileOfIs(s, des);
  }

  /** Reading changes the offset only, by as much as was read. */
  lemma ReadContract(s: State, des: nat, size: nat)
    requires DataInv(s)
    ensures var e := ExecRead(s, des, size);
            && e.status == UseStatus(s.recording, des)
            && (!e.status.Done? ==> e.state == s)
            && (e.status.Done? ==>
                  && des < |s.descriptors| && s.descriptors[des].file < |s.files|
                  && OnlyData(s, e.state, Read(des, size)) && e.state.files == s.files
                  && var h := s.descriptors[des];
                     var length := |Flat(s.files[h.file].content)|;
                     e.state.descriptors == s.descriptors[des := Descriptor(h.file, if h.offset + size <= length then h.offset + size else length)])
  {
    FileOfIs(s, des);
    if FileOf(s, des).Ok? {
      DataNeverFails(s, des);
      var h := s.descriptors[des];
      FlatSize(s.files[h.file].content);
      ReadIsSlice(s.files[h.file].content, h.offset, size);
    }
  }

  /** Writing overwrites from the offset on, growing the file if need be, and moves the offset behind what was written. */
  lemma WriteContract(s: State, des: nat, srcOffset: nat, size: nat)
    requires DataInv(s)
    ensures var e := ExecWrite(s, des, srcOffset, size);
            && e.status == UseStatus(s.recording, des)
            && (!e.status.Done? ==> e.state == s)
            && (e.status.Done? ==>
                  && des < |s.descriptors| && s.descriptors[des].file < |s.files| == |e.state.files|
                  && OnlyData(s, e.state, Write(des, srcOffset, size))
                  && var h := s.descriptors[des];
                     var was, now := Flat(s.files[h.file].content), Flat(e.state.files[h.file].content);
                     && e.state.descriptors == s.descriptors[des := Descriptor(h.file, h.offset + size)]
                     && (forall f :: 0 <= f < |s.files| && f != h.file ==> e.state.files[f] == s.files[f])
                     && e.state.files[h.file].descriptor == s.files[h.file].descriptor
                     && |now| == (if h.offset + size > |was| then h.offset + size else |was|)
                     && h.offset <= |was|
                     && forall k :: 0 <= k < |now| ==> now[k] == ByteAt(was, srcOffset, h.offset, size, k))
  {
    FileOfIs(s, des);
    if FileOf(s, des).Ok? {
      DataNeverFails(s, des);
      var h := s.descriptors[des];
      WrittenFlat(s.files[h.file].content, srcOffset, h.offset, size);
    }
  }

  /** Index k of a file after a write: new where it was written, as before elsewhere. */
  function ByteAt(was: seq<nat>, srcOffset: nat, offset: nat, size: nat, k: nat): nat
    requires offset <= |was| && (k < |was| || k < offset + size)
  {
    if offset <= k < offset + size then srcOffset + (k - offset) else was[k]
  }

  lemma WrittenFlat(content: seq<SourceSlice>, srcOffset: nat, offset: nat, size: nat)
    requires Tight(content) && offset <= TotalSize(content)
    ensures var was, now := Flat(content), Flat(WriteSlices(content, srcOffset, offset, size));
            && |now| == (if offset + size > |was| then offset + size else |was|)
            && offset <= |was|
            && forall k :: 0 <= k < |now| ==> now[k] == ByteAt(was, srcOffset, offset, size, k)
  {
    WriteIsOverwrite(content, srcOffset, offset, size);
  }
}

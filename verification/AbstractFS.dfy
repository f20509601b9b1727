/**
 The abstract filesystem as the source has it: vectors of directories, files, symlinks and descriptors that
 the operations update in place, and the recording (diffuzzer/src/abstract_fs/fs.rs).

 Every method is proved to do what its function in Operations.dfy says. A method asks its caller for one
 thing: that the call returns, i.e. neither panics nor recurses without end. Discipline.dfy shows when that is so.
 */
module FileSystem {
  import opened Wrappers
  import opened Pathname
  import opened Nodes
  import opened Resolution
  import opened Contents
  import opened Operations

  /** The visited list, as far as membership goes. */
  ghost function Members(visited: seq<nat>): set<nat> {
    set i | i in visited
  }

  class AbstractFS {
    var dirs: seq<Children>
    var files: seq<FileRecord>
    var symlinks: seq<string>
    var descriptors: seq<Descriptor>
    var recording: seq<Operation>

    ghost function Ns(): Namespace
      reads this
    {
      Namespace(dirs, symlinks)
    }

    ghost function View(): State
      reads this
    {
      State(Ns(), files, descriptors, recording)
    }

    /** File contents hold no empty slices. */
    ghost predicate Valid()
      reads this
    {
      forall f :: 0 <= f < |files| ==> Tight(files[f].content)
    }

    constructor ()
      ensures Valid() && View() == FRESH
    {
      dirs := [map[]];
      files := [];
      symlinks := [];
      descriptors := [];
      recording := [];
    }

    // ----- resolution

    method ResolveNode(path: string, followSymlinks: bool) returns (r: Result<Found, FsError>)
      requires Resolve(Ns(), path, followSymlinks) != Stuck
      ensures Resolve(Ns(), path, followSymlinks) == if r.Success? then Ok(r.value) else Err(r.error)
    {
      ghost var fuel := BudgetOf(Ns(), path, followSymlinks);
      assert Members([]) == {};
      r := ResolveNodeRec(path, followSymlinks, [], fuel);
    }

    /** `fuel` is only a witness that the recursion ends. */
    method ResolveNodeRec(path: string, followSymlinks: bool, visited: seq<nat>, ghost fuel: nat) returns (r: Result<Found, FsError>)
      requires Follow(Ns(), fuel, path, followSymlinks, Members(visited)) != Stuck
      ensures Follow(Ns(), fuel, path, followSymlinks, Members(visited)) == if r.Success? then Ok(r.value) else Err(r.error)
      decreases fuel, 1
    {
      if !IsValid(path) {
        return Failure(InvalidPath);
      }
      var passed: seq<nat> := [];
      var segments := Segments(path);
      var last := Dir(ROOT);
      var k := 0;
      assert segments[..0] == [];
      while k < |segments|
        invariant 0 <= k <= |segments|
        invariant Walk(Ns(), fuel, segments[..k]) == Ok(Found(passed, last))
      {
        WalkOn(Ns(), fuel, segments, k, passed, last);
        var entered := EnterNode(last, fuel);
        if entered.Failure? {
          return Failure(entered.error);
        }
        var (more, d) := entered.value;
        passed := passed + more + [d];
        if segments[k] !in dirs[d] {
          return Failure(NotFound);
        }
        last := dirs[d][segments[k]];
        k := k + 1;
      }
      assert segments[..k] == segments;
      if last.Symlink? && followSymlinks {
        var idx := last.link;
        if idx in visited {
          return Failure(LoopExists);
        }
        var target := symlinks[idx];
        assert Members(visited) + {idx} == Members(visited + [idx]);
        var sub := ResolveNodeRec(target, true, visited + [idx], fuel - 1);
        if sub.Failure? {
          return sub;
        }
        return Success(Found(passed + sub.value.passed, sub.value.node));
      }
      return Success(Found(passed, last));
    }

    /** The directory to look the next segment up in. */
    method EnterNode(node: Node, ghost fuel: nat) returns (r: Result<(seq<nat>, nat), FsError>)
      requires Enter(Ns(), fuel, node) != Stuck
      ensures Enter(Ns(), fuel, node) == if r.Success? then Ok(r.value) else Err(r.error)
      decreases fuel, 0
    {
      match node {
        case Dir(idx) =>
          return Success(([], idx));
        case Symlink(idx) =>
          var target := symlinks[idx];
          assert Members([]) == {};
          var sub := ResolveNodeRec(target, true, [], fuel - 1);
          if sub.Failure? {
            return Failure(sub.error);
          }
          if !sub.value.node.Dir? {
            return Failure(NotADir);
          }
          return Success((sub.value.passed, sub.value.node.dir));
        case File(_) =>
          return Failure(NotADir);
      }
    }

    method ResolveFilePath(path: string) returns (r: Result<nat, FsError>)
      requires ResolveFile(Ns(), path) != Stuck
      ensures ResolveFile(Ns(), path) == if r.Success? then Ok(r.value) else Err(r.error)
    {
      var node := ResolveNode(path, true);
      if node.Failure? {
        return Failure(node.error);
      }
      return if node.value.node.File? then Success(node.value.node.file) else Failure(NotAFile);
    }

    method ResolveDirPath(path: string) returns (r: Result<(seq<nat>, nat), FsError>)
      requires ResolveDir(Ns(), path) != Stuck
      ensures ResolveDir(Ns(), path) == if r.Success? then Ok(r.value) else Err(r.error)
    {
      var node := ResolveNode(path, true);
      if node.Failure? {
        return Failure(node.error);
      }
      return if node.value.node.Dir? then Success((node.value.passed, node.value.node.dir)) else Failure(NotADir);
    }

    // ----- directories and names

    method Remove(path: string) returns (r: Result<(), FsError>)
      requires Valid() && !ExecRemove(View(), path).status.NoReturn?
      modifies this
      ensures Valid() && View() == ExecRemove(old(View()), path).state
      ensures ExecRemove(old(View()), path).status == if r.Success? then Done else Failed(r.error)
    {
      if IsRoot(path) {
        return Failure(RootRemovalForbidden);
      }
      var (parentPath, name) := Split(path);
      var parent := ResolveDirPath(parentPath);
      if parent.Failure? {
        return Failure(parent.error);
      }
      var d := parent.value.1;
      if name !in dirs[d] {
        return Failure(NotFound);
      }
      dirs := dirs[d := dirs[d] - {name}];
      recording := recording + [Operation.Remove(path)];
      return Success(());
    }

    method MkDir(path: string, mode: Mode) returns (r: Result<nat, FsError>)
      requires Valid() && !ExecMkDir(View(), path, mode).status.NoReturn?
      modifies this
      ensures Valid() && View() == ExecMkDir(old(View()), path, mode).state
      ensures ExecMkDir(old(View()), path, mode).status == if r.Success? then Done else Failed(r.error)
      ensures r.Success? ==> r.value == |old(dirs)|
    {
      var (parentPath, name) := Split(path);
      var parent := ResolveDirPath(parentPath);
      if parent.Failure? {
        return Failure(parent.error);
      }
      var d := parent.value.1;
      if name in dirs[d] {
        return Failure(NameAlreadyExists);
      }
      var dirIdx := |dirs|;
      dirs := dirs + [map[]];
      dirs := dirs[d := dirs[d][name := Dir(dirIdx)]];
      recording := recording + [Operation.MkDir(path, mode)];
      return Success(dirIdx);
    }

    method Create(path: string, mode: Mode) returns (r: Result<nat, FsError>)
      requires Valid() && !ExecCreate(View(), path, mode).status.NoReturn?
      modifies this
      ensures Valid() && View() == ExecCreate(old(View()), path, mode).state
      ensures ExecCreate(old(View()), path, mode).status == if r.Success? then Done else Failed(r.error)
      ensures r.Success? ==> r.value == |old(files)|
    {
      var (parentPath, name) := Split(path);
      var parent := ResolveDirPath(parentPath);
      if parent.Failure? {
        return Failure(parent.error);
      }
      var d := parent.value.1;
      if name in dirs[d] {
        return Failure(NameAlreadyExists);
      }
      var fileIdx := |files|;
      files := files + [FileRecord(None, [])];
      dirs := dirs[d := dirs[d][name := File(fileIdx)]];
      recording := recording + [Operation.Create(path, mode)];
      return Success(fileIdx);
    }

    method Hardlink(oldPath: string, newPath: string) returns (r: Result<nat, FsError>)
      requires Valid() && !ExecHardlink(View(), oldPath, newPath).status.NoReturn?
      modifies this
      ensures Valid() && View() == ExecHardlink(old(View()), oldPath, newPath).state
      ensures ExecHardlink(old(View()), oldPath, newPath).status == if r.Success? then Done else Failed(r.error)
      ensures r.Success? ==> ResolveFile(old(Ns()), oldPath) == Ok(r.value)
    {
      var (oldParentPath, oldName) := Split(oldPath);
      var oldParent := ResolveDirPath(oldParentPath);
      if oldParent.Failure? {
        return Failure(oldParent.error);
      }
      var od := oldParent.value.1;
      if oldName in dirs[od] && dirs[od][oldName].Symlink? {
        return Failure(HardlinkToSymlinkForbidden);
      }
      var oldFile := ResolveFilePath(oldPath);
      if oldFile.Failure? {
        return Failure(oldFile.error);
      }
      var (parentPath, name) := Split(newPath);
      var parent := ResolveDirPath(parentPath);
      if parent.Failure? {
        return Failure(parent.error);
      }
      var d := parent.value.1;
      if name in dirs[d] {
        return Failure(NameAlreadyExists);
      }
      dirs := dirs[d := dirs[d][name := File(oldFile.value)]];
      recording := recording + [Operation.Hardlink(oldPath, newPath)];
      return Success(oldFile.value);
    }

    method MakeSymlink(target: string, linkPath: string) returns (r: Result<nat, FsError>)
      requires Valid() && !ExecSymlink(View(), target, linkPath).status.NoReturn?
      modifies this
      ensures Valid() && View() == ExecSymlink(old(View()), target, linkPath).state
      ensures ExecSymlink(old(View()), target, linkPath).status == if r.Success? then Done else Failed(r.error)
      ensures r.Success? ==> r.value == |old(symlinks)|
    {
      var (parentPath, name) := Split(linkPath);
      var parent := ResolveDirPath(parentPath);
      if parent.Failure? {
        return Failure(parent.error);
      }
      var d := parent.value.1;
      if name in dirs[d] {
        return Failure(NameAlreadyExists);
      }
      var symIdx := |symlinks|;
      symlinks := symlinks + [target];
      dirs := dirs[d := dirs[d][name := Symlink(symIdx)]];
      recording := recording + [Operation.MakeSymlink(target, linkPath)];
      return Success(symIdx);
    }

    method Rename(oldPath: string, newPath: string) returns (r: Result<Node, FsError>)
      requires Valid() && !ExecRename(View(), oldPath, newPath).status.NoReturn?
      modifies this
      ensures Valid() && View() == ExecRename(old(View()), oldPath, newPath).state
      ensures ExecRename(old(View()), oldPath, newPath).status == if r.Success? then Done else Failed(r.error)
      ensures r.Success? ==> RenameChecks(old(Ns()), oldPath, newPath).Ok? && r.value == RenameChecks(old(Ns()), oldPath, newPath).value.1
    {
      ghost var s := View();
      var checked := CheckRename(oldPath, newPath);
      if checked.Failure? {
        return Failure(checked.error);
      }
      var (p, node) := checked.value;
      var newName := Split(newPath).1;
      dirs := dirs[p := dirs[p][newName := node]];
      assert Ns() == Insert(s.ns, p, newName, node);

      var (oldParentPath, oldName) := Split(oldPath);
      var oldParent := ResolveDirPath(oldParentPath);
      if oldParent.Failure? {
        return Failure(oldParent.error);
      }
      var q := oldParent.value.1;
      dirs := dirs[q := dirs[q] - {oldName}];
      recording := recording + [Operation.Rename(oldPath, newPath)];
      return Success(node);
    }

    /** What rename does before its first change. */
    method CheckRename(oldPath: string, newPath: string) returns (r: Result<(nat, Node), FsError>)
      requires RenameChecks(Ns(), oldPath, newPath) != Stuck
      ensures RenameChecks(Ns(), oldPath, newPath) == if r.Success? then Ok(r.value) else Err(r.error)
    {
      var target := ResolveDirPath(newPath);
      if target.Success? {
        if dirs[target.value.1] != map[] {
          return Failure(DirNotEmpty);
        }
      }
      var source := ResolveNode(oldPath, false);
      if source.Failure? {
        return Failure(source.error);
      }
      var node := source.value.node;
      var newParent := ResolveDirPath(Split(newPath).0);
      if newParent.Failure? {
        return Failure(newParent.error);
      }
      var (passed, p) := newParent.value;
      if node.Dir? && (node.dir in passed || p == node.dir) {
        return Failure(RenameToSubdirectoryError);
      }
      return Success((p, node));
    }

    // ----- descriptors

    method Open(path: string) returns (r: Result<nat, FsError>)
      requires Valid() && !ExecOpen(View(), path).status.NoReturn?
      modifies this
      ensures Valid() && View() == ExecOpen(old(View()), path).state
      ensures ExecOpen(old(View()), path).status == if r.Success? then Done else Failed(r.error)
      ensures r.Success? ==> r.value == |old(descriptors)|
    {
      var des := |descriptors|;
      var file := ResolveFilePath(path);
      if file.Failure? {
        return Failure(file.error);
      }
      var f := file.value;
      if files[f].descriptor.Some? {
        return Failure(FileAlreadyOpened);
      }
      files := files[f := files[f].(descriptor := Some(des))];
      descriptors := descriptors + [Descriptor(f, 0)];
      recording := recording + [Operation.Open(path, des)];
      return Success(des);
    }

    /** The lookups that start every operation on a descriptor. */
    method OpenFile(des: nat) returns (r: Result<nat, FsError>)
      requires FileOf(View(), des) != Stuck
      ensures FileOf(View(), des) == if r.Success? then Ok(r.value) else Err(r.error)
    {
      if des >= |descriptors| {
        return Failure(BadDescriptor);
      }
      var f := descriptors[des].file;
      if files[f].descriptor != Some(des) {
        return Failure(DescriptorWasClosed);
      }
      return Success(f);
    }

    method Close(des: nat) returns (r: Result<(), FsError>)
      requires Valid() && !ExecClose(View(), des).status.NoReturn?
      modifies this
      ensures Valid() && View() == ExecClose(old(View()), des).state
      ensures ExecClose(old(View()), des).status == if r.Success? then Done else Failed(r.error)
    {
      var file := OpenFile(des);
      if file.Failure? {
        return Failure(file.error);
      }
      files := files[file.value := files[file.value].(descriptor := None)];
      recording := recording + [Operation.Close(des)];
      return Success(());
    }

    method Read(des: nat, size: nat) returns (r: Result<seq<SourceSlice>, FsError>)
      requires Valid() && !ExecRead(View(), des, size).status.NoReturn?
      modifies this
      ensures Valid() && View() == ExecRead(old(View()), des, size).state
      ensures ExecRead(old(View()), des, size).status == if r.Success? then Done else Failed(r.error)
      ensures r.Success? ==> FileOf(old(View()), des).Ok? && r.value == ReadResult(old(View()), des, size)
    {
      var file := OpenFile(des);
      if file.Failure? {
        return Failure(file.error);
      }
      var offset := descriptors[des].offset;
      var stored := new Content.Of(files[file.value].content);
      var content := stored.Read(offset, size);
      if content.Failure? {
        return Failure(ContentFailure);
      }
      var n := content.value.Size();
      var fileSize := stored.Size();
      descriptors := descriptors[des := descriptors[des].(offset := offset + n)];
      assert descriptors[des].offset <= fileSize;
      recording := recording + [Operation.Read(des, size)];
      return Success(content.value.slices);
    }

    method Write(des: nat, srcOffset: nat, size: nat) returns (r: Result<(), FsError>)
      requires Valid() && !ExecWrite(View(), des, srcOffset, size).status.NoReturn?
      modifies this
      ensures Valid() && View() == ExecWrite(old(View()), des, srcOffset, size).state
      ensures ExecWrite(old(View()), des, srcOffset, size).status == if r.Success? then Done else Failed(r.error)
    {
      var file := OpenFile(des);
      if file.Failure? {
        return Failure(file.error);
      }
      var offset := descriptors[des].offset;
      var stored := new Content.Of(files[file.value].content);
      var written := stored.Write(srcOffset, offset, size);
      if written.Failure? {
        return Failure(ContentFailure);
      }
      var fileSize := stored.Size();
      files := files[file.value := files[file.value].(content := stored.slices)];
      descriptors := descriptors[des := descriptors[des].(offset := offset + size)];
      assert descriptors[des].offset <= fileSize;
      recording := recording + [Operation.Write(des, srcOffset, size)];
      return Success(());
    }

    method FSync(des: nat) returns (r: Result<(), FsError>)
      requires Valid() && !ExecFSync(View(), des).status.NoReturn?
      modifies this
      ensures Valid() && View() == ExecFSync(old(View()), des).state
      ensures ExecFSync(old(View()), des).status == if r.Success? then Done else Failed(r.error)
    {
      var file := OpenFile(des);
      if file.Failure? {
        return Failure(file.error);
      }
      recording := recording + [Operation.FSync(des)];
      return Success(());
    }

    // ----- replay

    method Apply(op: Operation) returns (r: Result<(), FsError>)
      requires Valid() && !Exec(View(), op).status.NoReturn?
      modifies this
      ensures Valid() && View() == Exec(old(View()), op).state
      ensures Exec(old(View()), op).status == if r.Success? then Done else Failed(r.error)
    {
      match op {
        case MkDir(path, mode) =>
          var m := MkDir(path, mode);
          r := if m.Success? then Success(()) else Failure(m.error);
        case Create(path, mode) =>
          var m := Create(path, mode);
          r := if m.Success? then Success(()) else Failure(m.error);
        case Remove(path) =>
          r := Remove(path);
        case Hardlink(oldPath, newPath) =>
          var m := Hardlink(oldPath, newPath);
          r := if m.Success? then Success(()) else Failure(m.error);
        case Rename(oldPath, newPath) =>
          var m := Rename(oldPath, newPath);
          r := if m.Success? then Success(()) else Failure(m.error);
        case Open(path, _) =>
          var m := Open(path);
          r := if m.Success? then Success(()) else Failure(m.error);
        case Close(des) =>
          r := Close(des);
        case Read(des, size) =>
          var m := Read(des, size);
          r := if m.Success? then Success(()) else Failure(m.error);
        case Write(des, srcOffset, size) =>
          r := Write(des, srcOffset, size);
        case FSync(des) =>
          r := FSync(des);
        case MakeSymlink(target, linkPath) =>
          var m := MakeSymlink(target, linkPath);
          r := if m.Success? then Success(()) else Failure(m.error);
      }
    }

    /** Runs a workload on top of the present state; stops at the first failure. */
    method Replay(workload: seq<Operation>) returns (r: Result<(), FsError>)
      requires Valid() && !Operations.Replay(View(), workload).status.NoReturn?
      modifies this
      ensures Valid() && View() == Operations.Replay(old(View()), workload).state
      ensures Operations.Replay(old(View()), workload).status == if r.Success? then Done else Failed(r.error)
    {
      ghost var goal := Operations.Replay(View(), workload);
      var k := 0;
      assert workload[0..] == workload;
      while k < |workload|
        invariant 0 <= k <= |workload|
        invariant Valid()
        invariant Operations.Replay(View(), workload[k..]) == goal
      {
        assert workload[k..][0] == workload[k] && workload[k..][1..] == workload[k + 1..];
        var done := Apply(workload[k]);
        if done.Failure? {
          return done;
        }
        k := k + 1;
      }
      return Success(());
    }
  }

  /** One more step of a walk, and what it means for the whole walk when it fails. */
  lemma WalkOn(ns: Namespace, fuel: nat, segs: seq<Name>, k: nat, passed: seq<nat>, last: Node)
    requires k < |segs| && Walk(ns, fuel, segs[..k]) == Ok(Found(passed, last)) && Walk(ns, fuel, segs) != Stuck
    ensures match Enter(ns, fuel, last)
            case Stuck => false
            case Err(e) => Walk(ns, fuel, segs) == Err(e)
            case Ok((more, d)) =>
              d < |ns.dirs| &&
              if segs[k] in ns.dirs[d] then Walk(ns, fuel, segs[..k + 1]) == Ok(Found(passed + more + [d], ns.dirs[d][segs[k]]))
              else Walk(ns, fuel, segs) == Err(NotFound)
  {
    assert segs[..k + 1][..k] == segs[..k];
    WalkStopped(ns, fuel, segs, k + 1);
  }

  /** A walk that does not end well stops where its shortest such beginning stops. */
  lemma {:induction false} WalkStopped(ns: Namespace, fuel: nat, segs: seq<Name>, k: nat)
    requires k <= |segs|
    ensures !Walk(ns, fuel, segs[..k]).Ok? ==> Walk(ns, fuel, segs) == Walk(ns, fuel, segs[..k])
    decreases |segs| - k
  {
    if k < |segs| {
      WalkStopped(ns, fuel, segs, k + 1);
      assert segs[..k + 1][..k] == segs[..k];
    } else {
      assert segs[..k] == segs;
    }
  }
}

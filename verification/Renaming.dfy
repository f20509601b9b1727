/**
 Rename inserts the new entry first and then resolves the old parent in the changed tree
 (diffuzzer/src/abstract_fs/fs.rs, rename). Why that second resolution gives the same directory, and the
 one kind of path for which it fails.
 */
module Renaming {
  import opened Pathname
  import opened Nodes
  import opened Resolution
  import opened Forest
  import opened Operations

  /** An existing entry that leads, as a directory, to an empty one if anywhere. */
  ghost predicate DeadEnd(ns: Namespace, node: Node) {
    forall fuel: nat :: Enter(ns, fuel, node).Ok? ==>
      var d := Enter(ns, fuel, node).value.1; d < |ns.dirs| && ns.dirs[d] == map[]
  }

  /** What must hold of the entry that rename is about to overwrite. */
  ghost predicate Overwritable(ns: Namespace, p: nat, n: Name) {
    p < |ns.dirs| && (Proper(n) && n in ns.dirs[p] ==> DeadEnd(ns, ns.dirs[p][n]))
  }

  /** A walk either does not change with the overwritten entry, or that entry was its last step. */
  lemma {:induction false} WalkFrame(ns: Namespace, p: nat, n: Name, node: Node, fuel: nat, segs: seq<Name>)
    requires Overwritable(ns, p, n) && AllProper(segs) && Walk(ns, fuel, segs).Ok?
    ensures Walk(Insert(ns, p, n, node), fuel, segs) == Walk(ns, fuel, segs)
            || (Proper(n) && n in ns.dirs[p] && Walk(ns, fuel, segs).value.node == ns.dirs[p][n])
    decreases fuel, |segs|, 0
  {
    if segs != [] {
      var ns' := Insert(ns, p, n, node);
      var init, m := segs[..|segs| - 1], segs[|segs| - 1];
      assert Proper(m);
      assert AllProper(init) by { assert forall x :: x in init ==> x in segs; }
      WalkFrame(ns, p, n, node, fuel, init);
      var f := Walk(ns, fuel, init).value;
      var (passed, d) := Enter(ns, fuel, f.node).value;
      assert m in ns.dirs[d];
      assert Walk(ns', fuel, init) == Walk(ns, fuel, init);
      if f.node.Symlink? {
        FollowFrame(ns, p, n, node, fuel - 1, ns.links[f.node.link], {});
      }
      assert Enter(ns', fuel, f.node) == Enter(ns, fuel, f.node);
    }
  }

  /** A resolution that ends in a non-empty directory does not change with the overwritten entry. */
  lemma {:induction false} FollowFrame(ns: Namespace, p: nat, n: Name, node: Node, fuel: nat, path: string, visited: set<nat>)
    requires Overwritable(ns, p, n)
    requires var r := AsDir(Follow(ns, fuel, path, true, visited)); r.Ok? && r.value.1 < |ns.dirs| && ns.dirs[r.value.1] != map[]
    ensures Follow(Insert(ns, p, n, node), fuel, path, true, visited) == Follow(ns, fuel, path, true, visited)
    decreases fuel, |Segments(path)| + 1, 1
  {
    SegmentsProper(path);
    WalkFrame(ns, p, n, node, fuel, Segments(path));
    var f := Walk(ns, fuel, Segments(path)).value;
    if f.node.Symlink? {
      var i := f.node.link;
      FollowFrame(ns, p, n, node, fuel - 1, ns.links[i], visited + {i});
      ForgetVisited(ns, fuel - 1, ns.links[i], visited + {i}, {});
    }
    assert Enter(ns, fuel, f.node).Ok? && Enter(ns, fuel, f.node).value.1 == AsDir(Follow(ns, fuel, path, true, visited)).value.1;
  }

  /** A path whose split has a valid parent and a name is itself valid. */
  lemma ValidFromSplit(p: string)
    requires '/' in p && IsValid(Split(p).0) && Split(p).1 != ""
    ensures IsValid(p) && !IsRoot(p)
  {
    var i := LastSlash(p);
    if i > 0 {
      assert p[..i][0] == p[0];
    }
  }

  /** The check for a non-empty destination makes the entry that will be overwritten a dead end. */
  lemma ChecksOverwritable(ns: Namespace, oldPath: string, newPath: string)
    requires RenameChecks(ns, oldPath, newPath).Ok?
    ensures Overwritable(ns, RenameChecks(ns, oldPath, newPath).value.0, Split(newPath).1)
  {
    var p := RenameChecks(ns, oldPath, newPath).value.0;
    var n := Split(newPath).1;
    var parent := Split(newPath).0;
    if Proper(n) && n in ns.dirs[p] {
      assert ResolveDir(ns, parent).Ok? && ResolveDir(ns, parent).value.1 == p;
      ResolvedIsValid(ns, parent, true);
      ValidFromSplit(newPath);
      SplitSegments(newPath);
      JoinResolves(ns, parent, newPath, n);
      forall fuel: nat | Enter(ns, fuel, ns.dirs[p][n]).Ok?
        ensures var d := Enter(ns, fuel, ns.dirs[p][n]).value.1; d < |ns.dirs| && ns.dirs[d] == map[]
      {
        EnteredIsResolved(ns, newPath, fuel);
      }
    }
  }

  lemma ResolvedIsValid(ns: Namespace, path: string, follow: bool)
    requires Resolve(ns, path, follow).Ok?
    ensures IsValid(path)
  {
    var fuel := BudgetOf(ns, path, follow);
  }

  /** A node that can be entered is, for a path that ends in it, the directory the path resolves to. */
  lemma EnteredIsResolved(ns: Namespace, path: string, fuel: nat)
    requires Resolve(ns, path, false).Ok? && Enter(ns, fuel, Resolve(ns, path, false).value.node).Ok?
    ensures ResolveDir(ns, path).Ok?
    ensures ResolveDir(ns, path).value.1 == Enter(ns, fuel, Resolve(ns, path, false).value.node).value.1
  {
    var f := Resolve(ns, path, false).value;
    if f.node.Symlink? {
      ResolveIs(ns, fuel - 1, ns.links[f.node.link], true);
      LinkResolves(ns, path, f.passed, f.node.link);
    } else {
      PlainResolves(ns, path);
    }
  }

  /** Where the renamed node was: the entry that the old path names. */
  lemma OldEntry(ns: Namespace, oldPath: string, newPath: string) returns (q: nat)
    requires |ns.dirs| > 0 && RootFree(ns) && OneParent(ns)
    requires RenameChecks(ns, oldPath, newPath).Ok? && !DoubledBeforeName(oldPath)
    ensures '/' in oldPath && IsValid(Split(oldPath).0)
    ensures ParentOf(ns, oldPath) == Ok(q)
    ensures HasEntry(ns, q, Split(oldPath).1, RenameChecks(ns, oldPath, newPath).value.1)
  {
    ResolvedIsValid(ns, oldPath, false);
    assert oldPath[0] == '/';
    if IsRoot(oldPath) {
      RootRefused(ns, oldPath, newPath);
      assert false;
    }
    SplitParentValid(oldPath);
    SplitSegments(oldPath);
    var (parent, n) := Split(oldPath);
    JoinResolves(ns, parent, oldPath, n);
    q := ResolveDir(ns, parent).value.1;
  }

  /** The root is never renamed: every destination is below it. */
  lemma RootRefused(ns: Namespace, oldPath: string, newPath: string)
    requires RootFree(ns) && OneParent(ns) && IsRoot(oldPath)
    ensures !RenameChecks(ns, oldPath, newPath).Ok?
  {
    SegmentsOfRoot();
    ResolveIs(ns, 0, oldPath, false);
    assert Resolve(ns, oldPath, false) == Ok(Found([], Dir(ROOT)));
    if RenameChecks(ns, oldPath, newPath).Ok? {
      ResolvedPassesRoot(ns, Split(newPath).0);
      assert false;
    }
  }

  lemma ResolvedPassesRoot(ns: Namespace, path: string)
    requires ResolveDir(ns, path).Ok?
    ensures ROOT in ResolveDir(ns, path).value.0 || ResolveDir(ns, path).value.1 == ROOT
  {
    var fuel := BudgetOf(ns, path, true);
    if Segments(path) != [] {
      WalkPassesRoot(ns, fuel, Segments(path));
    }
  }

  lemma {:induction false} WalkPassesRoot(ns: Namespace, fuel: nat, segs: seq<Name>)
    requires segs != [] && Walk(ns, fuel, segs).Ok?
    ensures ROOT in Walk(ns, fuel, segs).value.passed
    decreases |segs|
  {
    var init := segs[..|segs| - 1];
    if init != [] {
      WalkPassesRoot(ns, fuel, init);
    } else {
      assert Walk(ns, fuel, init) == Ok(Found([], Dir(ROOT)));
      assert Enter(ns, fuel, Dir(ROOT)).value.1 == ROOT;
    }
  }

  /** After the insertion the old parent still resolves, to the same directory. */
  lemma OldParentStays(ns: Namespace, oldPath: string, newPath: string, q: nat)
    requires RenameChecks(ns, oldPath, newPath).Ok?
    requires ParentOf(ns, oldPath) == Ok(q) && Split(oldPath).1 in ns.dirs[q]
    ensures var (p, node) := RenameChecks(ns, oldPath, newPath).value;
            ParentOf(Insert(ns, p, Split(newPath).1, node), oldPath) == Ok(q)
  {
    var (p, node) := RenameChecks(ns, oldPath, newPath).value;
    var n := Split(newPath).1;
    var parent := Split(oldPath).0;
    ChecksOverwritable(ns, oldPath, newPath);
    var fuel := BudgetOf(ns, parent, true);
    FollowFrame(ns, p, n, node, fuel, parent, {});
    ResolveIs(Insert(ns, p, n, node), fuel, parent, true);
  }

  /**
   Rename that has passed its checks makes exactly one move, unless the old path has doubled slashes before
   its last name. Then it leaves the new entry behind and fails.
   */
  lemma RenameMoves(s: State, oldPath: string, newPath: string)
    requires |s.ns.dirs| > 0 && RootFree(s.ns) && OneParent(s.ns)
    requires RenameChecks(s.ns, oldPath, newPath).Ok?
    ensures var (p, node) := RenameChecks(s.ns, oldPath, newPath).value;
            var inserted := Insert(s.ns, p, Split(newPath).1, node);
            var e := ExecRename(s, oldPath, newPath);
            if DoubledBeforeName(oldPath) then
              e == Effect(s.(ns := inserted), Failed(InvalidPath))
            else
              && ParentOf(s.ns, oldPath).Ok?
              && var q := ParentOf(s.ns, oldPath).value;
              && HasEntry(s.ns, q, Split(oldPath).1, node)
              && e == Effect(Recorded(s.(ns := Delete(inserted, q, Split(oldPath).1)), Rename(oldPath, newPath)), Done)
  {
    if DoubledBeforeName(oldPath) {
      var (p, node) := RenameChecks(s.ns, oldPath, newPath).value;
      ResolvedIsValid(s.ns, oldPath, false);
      SplitParentValid(oldPath);
      ResolveIs(Insert(s.ns, p, Split(newPath).1, node), 0, Split(oldPath).0, true);
    } else {
      var q := OldEntry(s.ns, oldPath, newPath);
      OldParentStays(s.ns, oldPath, newPath, q);
    }
  }

  /**
   When rename is atomic. Past its checks it succeeds exactly when the old path has no doubled slashes before
   its last name; and a rename that does not succeed has changed the state exactly when it got past its
   checks and the entry it then inserted was not there already.
   */
  lemma RenameAtomic(s: State, oldPath: string, newPath: string)
    requires |s.ns.dirs| > 0 && RootFree(s.ns) && OneParent(s.ns)
    ensures var c := RenameChecks(s.ns, oldPath, newPath);
            var e := ExecRename(s, oldPath, newPath);
            && (e.status.Done? <==> c.Ok? && !DoubledBeforeName(oldPath))
            && (!e.status.Done? ==>
                  (e.state != s <==> c.Ok? && !HasEntry(s.ns, c.value.0, Split(newPath).1, c.value.1)))
  {
    var c := RenameChecks(s.ns, oldPath, newPath);
    if c.Ok? {
      RenameMoves(s, oldPath, newPath);
      var (p, node) := c.value;
      var n := Split(newPath).1;
      var children := s.ns.dirs[p];
      if HasEntry(s.ns, p, n, node) {
        assert children[n := node] == children;
        assert s.ns.dirs[p := children] == s.ns.dirs;
      } else {
        assert HasEntry(Insert(s.ns, p, n, node), p, n, node);
      }
    }
  }

  // ----- entries are neither lost nor doubled

  /** The number of directory entries. */
  function Entries(dirs: seq<Children>): nat {
    if dirs == [] then 0 else Entries(dirs[..|dirs| - 1]) + |dirs[|dirs| - 1]|
  }

  lemma {:induction false} EntriesUpdate(dirs: seq<Children>, d: nat, c: Children)
    requires d < |dirs|
    ensures Entries(dirs[d := c]) == Entries(dirs) - |dirs[d]| + |c|
  {
    var k := |dirs| - 1;
    if d == k {
      assert dirs[d := c][..k] == dirs[..k];
    } else {
      assert dirs[d := c][..k] == dirs[..k][d := c];
      EntriesUpdate(dirs[..k], d, c);
    }
  }

  lemma InsertCount(ns: Namespace, d: nat, n: Name, node: Node)
    requires d < |ns.dirs|
    ensures Entries(Insert(ns, d, n, node).dirs) == Entries(ns.dirs) + if n in ns.dirs[d] then 0 else 1
  {
    var c := ns.dirs[d];
    EntriesUpdate(ns.dirs, d, c[n := node]);
    assert c[n := node].Keys == c.Keys + {n};
    if n in c { assert c.Keys + {n} == c.Keys; }
  }

  lemma DeleteCount(ns: Namespace, d: nat, n: Name)
    requires d < |ns.dirs| && n in ns.dirs[d]
    ensures Entries(Delete(ns, d, n).dirs) == Entries(ns.dirs) - 1
  {
    var c := ns.dirs[d];
    EntriesUpdate(ns.dirs, d, c - {n});
    assert (c - {n}).Keys == c.Keys - {n};
  }

  /** A successful rename leaves as many entries as there were, or one fewer when it overwrote one. */
  lemma RenameCount(s: State, oldPath: string, newPath: string)
    requires |s.ns.dirs| > 0 && RootFree(s.ns) && OneParent(s.ns)
    requires RenameChecks(s.ns, oldPath, newPath).Ok? && !DoubledBeforeName(oldPath)
    ensures var p := RenameChecks(s.ns, oldPath, newPath).value.0;
            var e := ExecRename(s, oldPath, newPath);
            Entries(e.state.ns.dirs) == Entries(s.ns.dirs) - if Split(newPath).1 in s.ns.dirs[p] then 1 else 0
  {
    var (p, node) := RenameChecks(s.ns, oldPath, newPath).value;
    RenameMoves(s, oldPath, newPath);
    InsertCount(s.ns, p, Split(newPath).1, node);
    DeleteCount(Insert(s.ns, p, Split(newPath).1, node), ParentOf(s.ns, oldPath).value, Split(oldPath).1);
  }

  /** A directory is never moved below itself, even through symlinks. */
  lemma RenameForest(s: State, oldPath: string, newPath: string)
    requires IsForest(s.ns) && RenameChecks(s.ns, oldPath, newPath).Ok? && !DoubledBeforeName(oldPath)
    requires forall a: nat, m, c: nat :: HasEntry(s.ns, a, m, Dir(c)) ==> c < |s.ns.dirs|
    ensures IsForest(ExecRename(s, oldPath, newPath).state.ns)
  {
    var (p, node) := RenameChecks(s.ns, oldPath, newPath).value;
    RenameMoves(s, oldPath, newPath);
    if node.Dir? {
      ResolveCovers(s.ns, Split(newPath).0);
      assert Covers(s.ns, ResolveDir(s.ns, Split(newPath).0).value.0, p);
    }
    MoveForest(s.ns, p, Split(newPath).1, ParentOf(s.ns, oldPath).value, Split(oldPath).1, node);
  }
}

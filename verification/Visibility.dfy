/**
 What the namespace operations of diffuzzer/src/abstract_fs/fs.rs do to resolution: which paths lead where
 after a creation, a removal and a rename.
 */
module Visibility {
  import opened Pathname
  import opened Nodes
  import opened Resolution
  import opened Forest
  import opened Operations
  import opened Renaming

  /** Entries are only added. */
  ghost predicate Extends(ns: Namespace, ns': Namespace) {
    && |ns.dirs| <= |ns'.dirs|
    && ns.links <= ns'.links
    && forall d, n :: 0 <= d < |ns.dirs| && n in ns.dirs[d] ==> n in ns'.dirs[d] && ns'.dirs[d][n] == ns.dirs[d][n]
  }

  lemma {:induction false} WalkExtends(ns: Namespace, ns': Namespace, fuel: nat, segs: seq<Name>)
    requires Extends(ns, ns') && Walk(ns, fuel, segs).Ok?
    ensures Walk(ns', fuel, segs) == Walk(ns, fuel, segs)
    decreases fuel, |segs|, 0
  {
    if segs != [] {
      WalkExtends(ns, ns', fuel, segs[..|segs| - 1]);
      var node := Walk(ns, fuel, segs[..|segs| - 1]).value.node;
      if node.Symlink? {
        FollowExtends(ns, ns', fuel - 1, ns.links[node.link], true, {});
      }
    }
  }

  lemma {:induction false} FollowExtends(ns: Namespace, ns': Namespace, fuel: nat, path: string, follow: bool, visited: set<nat>)
    requires Extends(ns, ns') && Follow(ns, fuel, path, follow, visited).Ok?
    ensures Follow(ns', fuel, path, follow, visited) == Follow(ns, fuel, path, follow, visited)
    decreases fuel, |Segments(path)| + 1, 1
  {
    WalkExtends(ns, ns', fuel, Segments(path));
    var node := Walk(ns, fuel, Segments(path)).value.node;
    if follow && node.Symlink? {
      FollowExtends(ns, ns', fuel - 1, ns.links[node.link], true, visited + {node.link});
    }
  }

  /** What resolves goes on resolving, to the same node and past the same directories. */
  lemma ResolveExtends(ns: Namespace, ns': Namespace, path: string, follow: bool)
    requires Extends(ns, ns') && Resolve(ns, path, follow).Ok?
    ensures Resolve(ns', path, follow) == Resolve(ns, path, follow)
  {
    var fuel := BudgetOf(ns, path, follow);
    FollowExtends(ns, ns', fuel, path, follow, {});
    ResolveIs(ns', fuel, path, follow);
  }

  predicate Creates(op: Operation) {
    op.MkDir? || op.Create? || op.MakeSymlink? || op.Hardlink?
  }

  /** The node the new entry stands for. */
  ghost function NewNode(s: State, op: Operation): Node
    requires Creates(op) && Exec(s, op).status.Done?
  {
    match op
    case MkDir(_, _) => Dir(|s.ns.dirs|)
    case Create(_, _) => File(|s.files|)
    case MakeSymlink(_, _) => Symlink(|s.ns.links|)
    case Hardlink(oldPath, _) => File(ResolveFile(s.ns, oldPath).value)
  }

  /** An entry that leads to a node is all that is added. */
  ghost predicate Added(ns: Namespace, ns': Namespace, path: string, node: Node) {
    && '/' in path
    && var p := ParentOf(ns, path);
       p.Ok? && p.value < |ns.dirs| && Split(path).1 !in ns.dirs[p.value]
       && Extends(ns, ns') && HasEntry(ns', p.value, Split(path).1, node)
  }

  lemma InsertAdds(ns: Namespace, grown: Namespace, path: string, node: Node)
    requires VacantParent(ns, path).Ok?
    requires ns.dirs <= grown.dirs && ns.links <= grown.links
    ensures Added(ns, Insert(grown, VacantParent(ns, path).value, Split(path).1, node), path, node)
  {
  }

  lemma CreatedEntry(s: State, op: Operation)
    requires Creates(op) && Exec(s, op).status.Done?
    ensures Added(s.ns, Exec(s, op).state.ns, NewPath(op).value, NewNode(s, op))
  {
    match op
    case MkDir(path, _) => InsertAdds(s.ns, s.ns.(dirs := s.ns.dirs + [map[]]), path, Dir(|s.ns.dirs|));
    case Create(path, _) => InsertAdds(s.ns, s.ns, path, File(|s.files|));
    case MakeSymlink(target, path) => InsertAdds(s.ns, s.ns.(links := s.ns.links + [target]), path, Symlink(|s.ns.links|));
    case Hardlink(oldPath, path) => InsertAdds(s.ns, s.ns, path, NewNode(s, op));
  }

  /** Paths whose parent resolves begin with a slash. */
  lemma ParentValid(path: string)
    requires '/' in path && IsValid(Split(path).0)
    ensures path[0] == '/'
  {
    var i := LastSlash(path);
    if i > 0 { assert path[..i][0] == path[0]; }
  }

  /** A path leads to a node, past the directories its parent passes and then the parent. */
  ghost predicate FoundAt(ns: Namespace, ns': Namespace, path: string, node: Node) {
    && '/' in path
    && var p := ResolveDir(ns, Split(path).0);
       p.Ok? && Resolve(ns', path, false) == Ok(Found(p.value.0 + [p.value.1], node))
  }

  lemma AddedIsFound(ns: Namespace, ns': Namespace, path: string, node: Node)
    requires Added(ns, ns', path, node)
    ensures FoundAt(ns, ns', path, node) <==> !EndsWithSlash(path)
  {
    var parent := Split(path).0;
    ResolvedIsValid(ns, parent, true);
    ParentValid(path);
    if !EndsWithSlash(path) {
      ResolveExtends(ns, ns', parent, true);
      SplitSegments(path);
      JoinResolves(ns', parent, path, Split(path).1);
    } else if Resolve(ns', path, false).Ok? {
      ResolvedIsValid(ns', path, false);
      assert path == "/";
      RootFound(ns');
    }
  }

  /**
   What has been created is found under its path if and only if the path does not end with a slash; the code
   takes "/" and "/a/" too, and then makes an entry with an empty name, which no path leads to. Whatever
   resolved before still does, to the same node.
   */
  lemma CreatedIsFound(s: State, op: Operation)
    requires Creates(op) && Exec(s, op).status.Done?
    ensures FoundAt(s.ns, Exec(s, op).state.ns, NewPath(op).value, NewNode(s, op)) <==> !EndsWithSlash(NewPath(op).value)
    ensures forall path, follow :: Resolve(s.ns, path, follow).Ok? ==> Resolve(Exec(s, op).state.ns, path, follow) == Resolve(s.ns, path, follow)
  {
    CreatedEntry(s, op);
    var ns := Exec(s, op).state.ns;
    AddedIsFound(s.ns, ns, NewPath(op).value, NewNode(s, op));
    forall path, follow | Resolve(s.ns, path, follow).Ok?
      ensures Resolve(ns, path, follow) == Resolve(s.ns, path, follow)
    {
      ResolveExtends(s.ns, ns, path, follow);
    }
  }

  lemma RootFound(ns: Namespace)
    ensures Resolve(ns, "/", false) == Ok(Found([], Dir(ROOT)))
  {
    SegmentsOfRoot();
    ResolveIs(ns, 0, "/", false);
  }

  // ----- removal

  lemma DeleteExtends(ns: Namespace, d: nat, n: Name)
    requires d < |ns.dirs|
    ensures Extends(Delete(ns, d, n), ns)
  {
  }

  /** Where the entry that a path names is missing from its parent directory, the path leads nowhere. */
  lemma Unnamed(ns: Namespace, ns': Namespace, path: string, d: nat)
    requires Extends(ns', ns) && ParentOf(ns, path) == Ok(d) && d < |ns'.dirs| && Split(path).1 !in ns'.dirs[d]
    requires IsRoot(path) ==> false
    ensures !Resolve(ns', path, false).Ok?
  {
    if Resolve(ns', path, false).Ok? {
      var parent := Split(path).0;
      ResolvedIsValid(ns', path, false);
      ResolvedIsValid(ns, parent, true);
      SplitSegments(path);
      JoinResolves(ns', parent, path, Split(path).1);
      ResolveExtends(ns', ns, parent, true);
    }
  }

  /** What has been removed is gone, and whatever still resolves does so as before. */
  lemma RemovedIsGone(s: State, path: string)
    requires ExecRemove(s, path).status.Done?
    ensures !Resolve(ExecRemove(s, path).state.ns, path, false).Ok?
    ensures var ns := ExecRemove(s, path).state.ns;
            forall other, follow :: Resolve(ns, other, follow).Ok? ==> Resolve(ns, other, follow) == Resolve(s.ns, other, follow)
  {
    var d := ParentOf(s.ns, path).value;
    var ns := ExecRemove(s, path).state.ns;
    DeleteExtends(s.ns, d, Split(path).1);
    Unnamed(s.ns, ns, path, d);
    forall other, follow | Resolve(ns, other, follow).Ok?
      ensures Resolve(ns, other, follow) == Resolve(s.ns, other, follow)
    {
      ResolveExtends(ns, s.ns, other, follow);
    }
  }

  // ----- rename

  /** A resolution that neither passes nor ends in a node. */
  predicate Avoids(f: Found, node: Node) {
    f.node != node && (node.Dir? ==> node.dir !in f.passed)
  }

  /** What avoids the node of an entry does not miss the entry, unless that is a symlink. */
  lemma {:induction false} WalkWithout(ns: Namespace, q: nat, m: Name, fuel: nat, segs: seq<Name>)
    requires q < |ns.dirs| && m in ns.dirs[q] && !ns.dirs[q][m].Symlink?
    requires Walk(ns, fuel, segs).Ok? && Avoids(Walk(ns, fuel, segs).value, ns.dirs[q][m])
    ensures Walk(Delete(ns, q, m), fuel, segs) == Walk(ns, fuel, segs)
    decreases fuel, |segs|, 0
  {
    if segs != [] {
      var init := segs[..|segs| - 1];
      var f := Walk(ns, fuel, init).value;
      var (passed, d) := Enter(ns, fuel, f.node).value;
      assert Walk(ns, fuel, segs).value.passed == f.passed + passed + [d];
      assert d in f.passed + passed + [d];
      WalkWithout(ns, q, m, fuel, init);
      if f.node.Symlink? {
        FollowWithout(ns, q, m, fuel - 1, ns.links[f.node.link], {});
      }
    }
  }

  lemma {:induction false} FollowWithout(ns: Namespace, q: nat, m: Name, fuel: nat, path: string, visited: set<nat>)
    requires q < |ns.dirs| && m in ns.dirs[q] && !ns.dirs[q][m].Symlink?
    requires Follow(ns, fuel, path, true, visited).Ok? && Avoids(Follow(ns, fuel, path, true, visited).value, ns.dirs[q][m])
    ensures Follow(Delete(ns, q, m), fuel, path, true, visited) == Follow(ns, fuel, path, true, visited)
    decreases fuel, |Segments(path)| + 1, 1
  {
    var f := Walk(ns, fuel, Segments(path)).value;
    if f.node.Symlink? {
      FollowWithout(ns, q, m, fuel - 1, ns.links[f.node.link], visited + {f.node.link});
    }
    WalkWithout(ns, q, m, fuel, Segments(path));
  }

  /** The insertion does not change how the new parent resolves. */
  lemma NewParentStays(ns: Namespace, oldPath: string, newPath: string)
    requires RenameChecks(ns, oldPath, newPath).Ok?
    ensures var (p, node) := RenameChecks(ns, oldPath, newPath).value;
            ResolveDir(Insert(ns, p, Split(newPath).1, node), Split(newPath).0) == ResolveDir(ns, Split(newPath).0)
  {
    var (p, node) := RenameChecks(ns, oldPath, newPath).value;
    var n, parent := Split(newPath).1, Split(newPath).0;
    var ns' := Insert(ns, p, n, node);
    if n in ns.dirs[p] {
      ChecksOverwritable(ns, oldPath, newPath);
      var fuel := BudgetOf(ns, parent, true);
      FollowFrame(ns, p, n, node, fuel, parent, {});
      ResolveIs(ns', fuel, parent, true);
    } else {
      ResolveExtends(ns, ns', parent, true);
    }
  }

  /** Source and destination of a rename are one entry: then it is removed. */
  ghost predicate SameEntry(ns: Namespace, oldPath: string, newPath: string)
    requires '/' in oldPath && '/' in newPath
  {
    ParentOf(ns, oldPath) == ParentOf(ns, newPath) && Split(oldPath).1 == Split(newPath).1
  }

  // ----- the new parent without the old entry

  /** Among the entries of one namespace, a third has all that two others share. */
  ghost predicate Shared(a: Namespace, b: Namespace, c: Namespace, top: Namespace) {
    && Extends(a, top) && Extends(b, top)
    && |c.dirs| >= |a.dirs| && c.links == a.links == b.links
    && forall d, n :: 0 <= d < |a.dirs| && 0 <= d < |b.dirs| && n in a.dirs[d] && n in b.dirs[d] ==>
         n in c.dirs[d] && c.dirs[d][n] == a.dirs[d][n]
  }

  /** A walk that succeeds in two parts of a namespace uses what they share only. */
  lemma {:induction false} WalkShared(a: Namespace, b: Namespace, c: Namespace, top: Namespace, fuel: nat, segs: seq<Name>)
    requires Shared(a, b, c, top) && Walk(a, fuel, segs).Ok? && Walk(b, fuel, segs).Ok?
    ensures Walk(c, fuel, segs) == Walk(a, fuel, segs)
    decreases fuel, |segs|, 0
  {
    if segs != [] {
      var init, n := segs[..|segs| - 1], segs[|segs| - 1];
      WalkShared(a, b, c, top, fuel, init);
      WalkExtends(a, top, fuel, init);
      WalkExtends(b, top, fuel, init);
      var node := Walk(a, fuel, init).value.node;
      EnterShared(a, b, c, top, fuel, node);
      var d := Enter(a, fuel, node).value.1;
      assert n in a.dirs[d] && n in b.dirs[d];
    }
  }

  lemma {:induction false} EnterShared(a: Namespace, b: Namespace, c: Namespace, top: Namespace, fuel: nat, node: Node)
    requires Shared(a, b, c, top) && Enter(a, fuel, node).Ok? && Enter(b, fuel, node).Ok?
    ensures Enter(c, fuel, node) == Enter(a, fuel, node) == Enter(b, fuel, node)
    decreases fuel, 0, 0
  {
    if node.Symlink? {
      FollowShared(a, b, c, top, fuel - 1, a.links[node.link], {});
      FollowExtends(a, top, fuel - 1, a.links[node.link], true, {});
      FollowExtends(b, top, fuel - 1, a.links[node.link], true, {});
    }
  }

  lemma {:induction false} FollowShared(a: Namespace, b: Namespace, c: Namespace, top: Namespace, fuel: nat, path: string, visited: set<nat>)
    requires Shared(a, b, c, top) && Follow(a, fuel, path, true, visited).Ok? && Follow(b, fuel, path, true, visited).Ok?
    ensures Follow(c, fuel, path, true, visited) == Follow(a, fuel, path, true, visited)
    decreases fuel, |Segments(path)| + 1, 1
  {
    var segs := Segments(path);
    assert Walk(b, fuel, segs) == Walk(a, fuel, segs) by {
      WalkExtends(a, top, fuel, segs);
      WalkExtends(b, top, fuel, segs);
    }
    assert Walk(c, fuel, segs) == Walk(a, fuel, segs) by { WalkShared(a, b, c, top, fuel, segs); }
    var node := Walk(a, fuel, segs).value.node;
    if node.Symlink? {
      FollowShared(a, b, c, top, fuel - 1, a.links[node.link], visited + {node.link});
    }
  }

  lemma DirShared(a: Namespace, b: Namespace, c: Namespace, top: Namespace, path: string)
    requires Shared(a, b, c, top) && ResolveDir(a, path).Ok? && ResolveDir(b, path).Ok?
    ensures ResolveDir(c, path) == ResolveDir(a, path)
  {
    var f := BudgetOf(a, path, true);
    var g := BudgetOf(b, path, true);
    var fuel := if f <= g then g else f;
    FollowBudget(a, f, fuel, path, true, {});
    FollowBudget(b, g, fuel, path, true, {});
    FollowShared(a, b, c, top, fuel, path, {});
    ResolveIs(c, fuel, path, true);
  }

  lemma DeleteInserted(ns: Namespace, p: nat, n: Name, node: Node)
    requires p < |ns.dirs|
    ensures Delete(Insert(ns, p, n, node), p, n) == Delete(ns, p, n)
  {
    assert ns.dirs[p][n := node] - {n} == ns.dirs[p] - {n};
    assert Delete(Insert(ns, p, n, node), p, n).dirs == Delete(ns, p, n).dirs;
  }

  /** The new parent is found without the entry that the rename will overwrite. */
  lemma NewParentApart(ns: Namespace, oldPath: string, newPath: string)
    requires RenameChecks(ns, oldPath, newPath).Ok?
    ensures var p := RenameChecks(ns, oldPath, newPath).value.0;
            ResolveDir(Delete(ns, p, Split(newPath).1), Split(newPath).0) == ResolveDir(ns, Split(newPath).0)
  {
    var p := RenameChecks(ns, oldPath, newPath).value.0;
    var (parent, n) := Split(newPath);
    if n in ns.dirs[p] {
      ChecksOverwritable(ns, oldPath, newPath);
      var fuel := BudgetOf(ns, parent, true);
      var filled := Insert(ns, p, n, File(0));
      FollowFrame(ns, p, n, File(0), fuel, parent, {});
      assert Follow(filled, fuel, parent, true, {}).value.node == Dir(p);
      FollowWithout(filled, p, n, fuel, parent, {});
      DeleteInserted(ns, p, n, File(0));
      ResolveIs(Delete(ns, p, n), fuel, parent, true);
    } else {
      assert ns.dirs[p] - {n} == ns.dirs[p];
      assert Delete(ns, p, n) == ns;
    }
  }

  /**
   Once the old entry is gone and the new one there, the new parent is found if and only if it is found
   without the old entry in the tree before: neither the overwritten entry nor the new one is on the way.
   */
  lemma NewParentKept(ns: Namespace, oldPath: string, newPath: string, q: nat, m: Name)
    requires RenameChecks(ns, oldPath, newPath).Ok? && q < |ns.dirs|
    requires (q, m) != (RenameChecks(ns, oldPath, newPath).value.0, Split(newPath).1)
    ensures var (p, node) := RenameChecks(ns, oldPath, newPath).value;
            var parent := Split(newPath).0;
            ResolveDir(Delete(Insert(ns, p, Split(newPath).1, node), q, m), parent).Ok? <==> ResolveDir(Delete(ns, q, m), parent).Ok?
  {
    var (p, node) := RenameChecks(ns, oldPath, newPath).value;
    var (parent, n) := Split(newPath);
    var apart := Delete(ns, p, n);
    NewParentApart(ns, oldPath, newPath);
    var inserted := Insert(ns, p, n, node);
    var after, without, least := Delete(inserted, q, m), Delete(ns, q, m), Delete(apart, q, m);
    DeleteInserted(ns, p, n, node);
    AllShared(ns, inserted, p, n, q, m);
    AllShared(ns, ns, p, n, q, m);
    if ResolveDir(after, parent).Ok? {
      DirShared(apart, after, least, inserted, parent);
      DirExtends(least, without, parent);
    }
    if ResolveDir(without, parent).Ok? {
      DirShared(apart, without, least, ns, parent);
      DirExtends(least, after, parent);
    }
  }

  /** A namespace that differs from another in one entry at most, and both without it or without some other entry. */
  lemma AllShared(ns: Namespace, top: Namespace, p: nat, n: Name, q: nat, m: Name)
    requires p < |ns.dirs| && q < |ns.dirs| && |top.dirs| == |ns.dirs| && top.links == ns.links
    requires Delete(top, p, n).dirs == Delete(ns, p, n).dirs
    ensures Shared(Delete(ns, p, n), Delete(top, q, m), Delete(Delete(ns, p, n), q, m), top)
    ensures Extends(Delete(Delete(ns, p, n), q, m), Delete(top, q, m))
  {
    var a, b := Delete(ns, p, n), Delete(top, p, n);
    assert a.dirs == b.dirs;
    forall d, k | 0 <= d < |a.dirs| && k in a.dirs[d]
      ensures k in top.dirs[d] && top.dirs[d][k] == a.dirs[d][k]
    {
      assert a.dirs[d] == b.dirs[d];
    }
  }

  /** Neither file nor directory can be moved below itself, so the new parent is found without the old entry. */
  lemma NewParentWithout(ns: Namespace, oldPath: string, newPath: string, q: nat)
    requires RenameChecks(ns, oldPath, newPath).Ok? && !RenameChecks(ns, oldPath, newPath).value.1.Symlink?
    requires HasEntry(ns, q, Split(oldPath).1, RenameChecks(ns, oldPath, newPath).value.1)
    ensures ResolveDir(Delete(ns, q, Split(oldPath).1), Split(newPath).0).Ok?
  {
    var parent := Split(newPath).0;
    var fuel := BudgetOf(ns, parent, true);
    FollowWithout(ns, q, Split(oldPath).1, fuel, parent, {});
    ResolveIs(Delete(ns, q, Split(oldPath).1), fuel, parent, true);
  }

  /** The new path's parent is found in the tree without the renamed entry; the way there does not need that entry. */
  ghost predicate ParentWithoutOld(ns: Namespace, oldPath: string, newPath: string)
    requires '/' in oldPath && '/' in newPath
  {
    && ParentOf(ns, oldPath).Ok?
    && ResolveDir(Delete(ns, ParentOf(ns, oldPath).value, Split(oldPath).1), Split(newPath).0).Ok?
  }

  /**
   After a rename the old path leads nowhere. What was renamed is found under the new path if and only if that
   does not end with a slash, is not the very entry that was renamed, and has a parent that is found in the
   tree without that entry. The last always holds for files and directories; the way to the new path of a
   symlink may go through that symlink.
   */
  lemma RenamedIsFound(s: State, oldPath: string, newPath: string)
    requires |s.ns.dirs| > 0 && RootFree(s.ns) && OneParent(s.ns)
    requires ExecRename(s, oldPath, newPath).status.Done?
    ensures '/' in oldPath && '/' in newPath
    ensures var ns := ExecRename(s, oldPath, newPath).state.ns;
            var node := RenameChecks(s.ns, oldPath, newPath).value.1;
            && !Resolve(ns, oldPath, false).Ok?
            && (Resolve(ns, newPath, false).Ok? ==> FoundAt(s.ns, ns, newPath, node))
            && (FoundAt(s.ns, ns, newPath, node) <==>
                  !EndsWithSlash(newPath) && !SameEntry(s.ns, oldPath, newPath) && ParentWithoutOld(s.ns, oldPath, newPath))
            && (!node.Symlink? ==> ParentWithoutOld(s.ns, oldPath, newPath))
  {
    var (p, node) := RenameChecks(s.ns, oldPath, newPath).value;
    RenameAtomic(s, oldPath, newPath);
    RenameMoves(s, oldPath, newPath);
    var q := OldEntry(s.ns, oldPath, newPath);
    OldIsGone(s.ns, oldPath, newPath, q);
    RootNotTarget(s.ns, oldPath, newPath);
    NewIsFound(s.ns, oldPath, newPath, q);
    if !node.Symlink? { NewParentWithout(s.ns, oldPath, newPath, q); }
  }

  lemma OldIsGone(ns: Namespace, oldPath: string, newPath: string, q: nat)
    requires |ns.dirs| > 0 && RootFree(ns) && OneParent(ns)
    requires RenameChecks(ns, oldPath, newPath).Ok? && ParentOf(ns, oldPath) == Ok(q) && Split(oldPath).1 in ns.dirs[q]
    ensures var (p, node) := RenameChecks(ns, oldPath, newPath).value;
            !Resolve(Delete(Insert(ns, p, Split(newPath).1, node), q, Split(oldPath).1), oldPath, false).Ok?
  {
    var (p, node) := RenameChecks(ns, oldPath, newPath).value;
    var inserted := Insert(ns, p, Split(newPath).1, node);
    OldParentStays(ns, oldPath, newPath, q);
    DeleteExtends(inserted, q, Split(oldPath).1);
    if IsRoot(oldPath) { RootRefused(ns, oldPath, newPath); }
    Unnamed(inserted, Delete(inserted, q, Split(oldPath).1), oldPath, q);
  }

  lemma NewIsFound(ns: Namespace, oldPath: string, newPath: string, q: nat)
    requires RenameChecks(ns, oldPath, newPath).Ok? && ParentOf(ns, oldPath) == Ok(q) && !IsRoot(newPath)
    ensures var (p, node) := RenameChecks(ns, oldPath, newPath).value;
            var ns' := Delete(Insert(ns, p, Split(newPath).1, node), q, Split(oldPath).1);
            && (Resolve(ns', newPath, false).Ok? ==> FoundAt(ns, ns', newPath, node))
            && (FoundAt(ns, ns', newPath, node) <==>
                  !EndsWithSlash(newPath) && !SameEntry(ns, oldPath, newPath) && ParentWithoutOld(ns, oldPath, newPath))
  {
    var (p, node) := RenameChecks(ns, oldPath, newPath).value;
    var (parent, n) := Split(newPath);
    var m := Split(oldPath).1;
    var inserted := Insert(ns, p, n, node);
    var ns' := Delete(inserted, q, m);
    NewParentStays(ns, oldPath, newPath);
    DeleteExtends(inserted, q, m);
    ResolvedIsValid(ns, parent, true);
    ParentValid(newPath);
    assert ParentOf(ns, newPath) == Ok(p);
    assert SameEntry(ns, oldPath, newPath) <==> (q, m) == (p, n);
    if Resolve(ns', newPath, false).Ok? {
      ResolvedIsValid(ns', newPath, false);
    }
    if IsValid(newPath) {
      SplitSegments(newPath);
      JoinResolves(ns', parent, newPath, n);
      if ResolveDir(ns', parent).Ok? { DirExtends(ns', inserted, parent); }
      if (q, m) != (p, n) { NewParentKept(ns, oldPath, newPath, q, m); }
    }
  }

  /** The root is no destination: it would have to be empty, and then there is nothing to rename. */
  lemma RootNotTarget(ns: Namespace, oldPath: string, newPath: string)
    requires |ns.dirs| > 0 && RootFree(ns) && OneParent(ns)
    requires RenameChecks(ns, oldPath, newPath).Ok?
    ensures !IsRoot(newPath)
  {
    if IsRoot(newPath) {
      RootFound(ns);
      PlainResolves(ns, newPath);
      assert ns.dirs[ROOT] == map[];
      EmptyRoot(ns, oldPath);
      RootRefused(ns, oldPath, newPath);
      assert false;
    }
  }

  lemma EmptyRoot(ns: Namespace, path: string)
    requires |ns.dirs| > 0 && ns.dirs[ROOT] == map[] && Resolve(ns, path, false).Ok?
    ensures IsRoot(path)
  {
    var fuel := BudgetOf(ns, path, false);
    var segs := Segments(path);
    if !IsRoot(path) {
      SplitSegments(path);
      EmptyRootWalk(ns, fuel, segs);
      assert false;
    }
  }

  lemma {:induction false} EmptyRootWalk(ns: Namespace, fuel: nat, segs: seq<Name>)
    requires |ns.dirs| > 0 && ns.dirs[ROOT] == map[] && segs != []
    ensures !Walk(ns, fuel, segs).Ok?
    decreases |segs|
  {
    var init := segs[..|segs| - 1];
    if init != [] {
      EmptyRootWalk(ns, fuel, init);
    } else {
      assert Walk(ns, fuel, init) == Ok(Found([], Dir(ROOT)));
      assert Enter(ns, fuel, Dir(ROOT)).value.1 == ROOT;
    }
  }

  lemma DirExtends(ns: Namespace, ns': Namespace, path: string)
    requires Extends(ns, ns') && ResolveDir(ns, path).Ok?
    ensures ResolveDir(ns', path) == ResolveDir(ns, path)
  {
    ResolveExtends(ns, ns', path, true);
  }
}

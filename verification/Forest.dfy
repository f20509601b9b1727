/**
 The directories form a forest (diffuzzer/src/abstract_fs/fs.rs): what that means, and why the list of
 directories that resolution passes is enough to recognise every ancestor.
 */
module Forest {
  import opened Pathname
  import opened Nodes
  import opened Resolution

  ghost predicate Edge(ns: Namespace, a: nat, c: nat) {
    exists n :: HasEntry(ns, a, n, Dir(c))
  }

  /** c is reached from a by going down k entries. */
  ghost predicate ReachIn(ns: Namespace, a: nat, c: nat, k: nat)
    decreases k
  {
    if k == 0 then a == c else exists d: nat :: Edge(ns, d, c) && ReachIn(ns, a, d, k - 1)
  }

  ghost predicate Reach(ns: Namespace, a: nat, c: nat) {
    exists k: nat :: ReachIn(ns, a, c, k)
  }

  ghost predicate RootFree(ns: Namespace) {
    forall a: nat, n :: !HasEntry(ns, a, n, Dir(ROOT))
  }

  ghost predicate OneParent(ns: Namespace) {
    forall a: nat, n, b: nat, m, c: nat :: HasEntry(ns, a, n, Dir(c)) && HasEntry(ns, b, m, Dir(c)) ==> a == b && n == m
  }

  /** Numbers that grow along every directory entry. */
  ghost predicate Depths(ns: Namespace, h: seq<nat>) {
    && |h| == |ns.dirs|
    && forall a: nat, n, c: nat :: HasEntry(ns, a, n, Dir(c)) ==> c < |h| && h[a] < h[c]
  }

  ghost predicate Acyclic(ns: Namespace) {
    exists h :: Depths(ns, h)
  }

  ghost predicate IsForest(ns: Namespace) {
    |ns.dirs| > 0 && RootFree(ns) && OneParent(ns) && Acyclic(ns)
  }

  /** No directory is its own proper descendant. */
  lemma NotOwnDescendant(ns: Namespace, a: nat, k: nat)
    requires IsForest(ns) && a < |ns.dirs| && k > 0
    ensures !ReachIn(ns, a, a, k)
  {
    if ReachIn(ns, a, a, k) {
      var h :| Depths(ns, h);
      ReachDeeper(ns, h, a, a, k);
      assert false;
    }
  }

  lemma {:induction false} ReachDeeper(ns: Namespace, h: seq<nat>, a: nat, c: nat, k: nat)
    requires Depths(ns, h) && ReachIn(ns, a, c, k) && a < |h|
    ensures c < |h| && h[a] + k <= h[c]
    decreases k
  {
    if k > 0 {
      var d: nat :| Edge(ns, d, c) && ReachIn(ns, a, d, k - 1);
      ReachDeeper(ns, h, a, d, k - 1);
      var n :| HasEntry(ns, d, n, Dir(c));
    }
  }

  lemma ReachStep(ns: Namespace, a: nat, d: nat, n: Name, c: nat)
    requires Reach(ns, a, d) && HasEntry(ns, d, n, Dir(c))
    ensures Reach(ns, a, c)
  {
    var k: nat :| ReachIn(ns, a, d, k);
    assert Edge(ns, d, c);
    assert ReachIn(ns, a, c, k + 1);
  }

  /** Every ancestor of c, c itself aside, is in the list. */
  ghost predicate Covers(ns: Namespace, passed: seq<nat>, c: nat) {
    forall a: nat :: Reach(ns, a, c) ==> a == c || a in passed
  }

  lemma RootCovered(ns: Namespace)
    requires RootFree(ns)
    ensures Covers(ns, [], ROOT)
  {
    forall a: nat | Reach(ns, a, ROOT)
      ensures a == ROOT
    {
      var k: nat :| ReachIn(ns, a, ROOT, k);
    }
  }

  lemma ChildCovered(ns: Namespace, passed: seq<nat>, d: nat, n: Name, c: nat)
    requires OneParent(ns) && Covers(ns, passed, d) && HasEntry(ns, d, n, Dir(c))
    ensures Covers(ns, passed + [d], c)
  {
    forall a: nat | Reach(ns, a, c)
      ensures a == c || a in passed + [d]
    {
      var k: nat :| ReachIn(ns, a, c, k);
      if k > 0 {
        var b: nat :| Edge(ns, b, c) && ReachIn(ns, a, b, k - 1);
        var m :| HasEntry(ns, b, m, Dir(c));
        assert b == d;
        assert Reach(ns, a, d);
      }
    }
  }

  /** The directories a resolution passes include every ancestor of the directory it ends in, symlinks or not. */
  lemma {:induction false} WalkCovers(ns: Namespace, fuel: nat, segs: seq<Name>)
    requires RootFree(ns) && OneParent(ns)
    ensures var w := Walk(ns, fuel, segs);
            w.Ok? && w.value.node.Dir? ==> Covers(ns, w.value.passed, w.value.node.dir)
    decreases fuel, |segs|, 0
  {
    if segs == [] {
      RootCovered(ns);
    } else if Walk(ns, fuel, segs).Ok? {
      var f := Walk(ns, fuel, segs[..|segs| - 1]).value;
      WalkCovers(ns, fuel, segs[..|segs| - 1]);
      var (passed, d) := Enter(ns, fuel, f.node).value;
      if f.node.Symlink? {
        FollowCovers(ns, fuel - 1, ns.links[f.node.link], true, {});
        CoversMore(ns, f.passed, passed, d);
      } else {
        assert f.passed + passed == f.passed;
      }
      var w := Walk(ns, fuel, segs).value;
      if w.node.Dir? {
        assert HasEntry(ns, d, segs[|segs| - 1], w.node);
        ChildCovered(ns, f.passed + passed, d, segs[|segs| - 1], w.node.dir);
      }
    }
  }

  lemma CoversMore(ns: Namespace, more: seq<nat>, passed: seq<nat>, c: nat)
    requires Covers(ns, passed, c)
    ensures Covers(ns, more + passed, c)
  {
  }

  lemma {:induction false} FollowCovers(ns: Namespace, fuel: nat, path: string, follow: bool, visited: set<nat>)
    requires RootFree(ns) && OneParent(ns)
    ensures var r := Follow(ns, fuel, path, follow, visited);
            r.Ok? && r.value.node.Dir? ==> Covers(ns, r.value.passed, r.value.node.dir)
    decreases fuel, |Segments(path)| + 1, 1
  {
    if Follow(ns, fuel, path, follow, visited).Ok? {
      WalkCovers(ns, fuel, Segments(path));
      var walked := Walk(ns, fuel, Segments(path));
      assert Finish(ns, fuel, walked, follow, visited).Ok?;
      assert walked.Ok?;
      var w := walked.value;
      if w.node.Symlink? && follow {
        var i := w.node.link;
        FollowCovers(ns, fuel - 1, ns.links[i], true, visited + {i});
        var r := Follow(ns, fuel - 1, ns.links[i], true, visited + {i}).value;
        if r.node.Dir? {
          CoversMore(ns, w.passed, r.passed, r.node.dir);
        }
      }
    }
  }

  lemma ResolveCovers(ns: Namespace, path: string)
    requires RootFree(ns) && OneParent(ns) && ResolveDir(ns, path).Ok?
    ensures Covers(ns, ResolveDir(ns, path).value.0, ResolveDir(ns, path).value.1)
  {
    var fuel := BudgetOf(ns, path, true);
    FollowCovers(ns, fuel, path, true, {});
  }

  // ----- growing and moving

  /** A directory made fresh and entered once keeps the forest. */
  lemma MkdirForest(ns: Namespace, d: nat, n: Name)
    requires IsForest(ns) && d < |ns.dirs| && n !in ns.dirs[d]
    requires forall a: nat, m, c: nat :: HasEntry(ns, a, m, Dir(c)) ==> c < |ns.dirs|
    ensures IsForest(Insert(ns.(dirs := ns.dirs + [map[]]), d, n, Dir(|ns.dirs|)))
  {
    var h :| Depths(ns, h);
    var ns' := Insert(ns.(dirs := ns.dirs + [map[]]), d, n, Dir(|ns.dirs|));
    forall a: nat, m, node | HasEntry(ns', a, m, node)
      ensures HasEntry(ns, a, m, node) || (a == d && m == n && node == Dir(|ns.dirs|))
    {
    }
    assert Depths(ns', h + [h[d] + 1]);
  }

  /** Removing entries keeps the forest, and so does adding entries for anything but directories. */
  lemma FewerEntries(ns: Namespace, ns': Namespace)
    requires IsForest(ns) && |ns'.dirs| == |ns.dirs|
    requires forall a: nat, m, c: nat :: HasEntry(ns', a, m, Dir(c)) ==> HasEntry(ns, a, m, Dir(c))
    ensures IsForest(ns')
  {
    var h :| Depths(ns, h);
    assert Depths(ns', h);
  }

  /** Giving a directory a new parent that it does not reach keeps the numbering possible. */
  lemma MoveAcyclic(ns: Namespace, ns': Namespace, p: nat, c: nat)
    requires Acyclic(ns) && |ns'.dirs| == |ns.dirs| && p < |ns.dirs| && c < |ns.dirs| && !Reach(ns, c, p)
    requires forall a: nat, m, b: nat :: HasEntry(ns', a, m, Dir(b)) ==> HasEntry(ns, a, m, Dir(b)) || (a == p && b == c)
    ensures Acyclic(ns')
  {
    var h :| Depths(ns, h);
    var h' := seq(|h|, i requires 0 <= i < |h| => h[i] + if Reach(ns, c, i) then h[p] + 1 else 0);
    assert Reach(ns, c, c) by { assert ReachIn(ns, c, c, 0); }
    forall a: nat, m, b: nat | HasEntry(ns', a, m, Dir(b))
      ensures b < |h'| && h'[a] < h'[b]
    {
      if HasEntry(ns, a, m, Dir(b)) {
        if Reach(ns, c, a) { ReachStep(ns, c, a, m, b); }
      }
    }
    assert Depths(ns', h');
  }

  /** Moving the only entry of a directory under a parent that it does not reach keeps the forest. */
  lemma MoveForest(ns: Namespace, p: nat, n: Name, q: nat, m: Name, node: Node)
    requires IsForest(ns) && p < |ns.dirs| && HasEntry(ns, q, m, node)
    requires node.Dir? ==> node.dir < |ns.dirs| && !Reach(ns, node.dir, p)
    ensures IsForest(Delete(Insert(ns, p, n, node), q, m))
  {
    var ns' := Delete(Insert(ns, p, n, node), q, m);
    forall a: nat, k, x | HasEntry(ns', a, k, x)
      ensures !(a == q && k == m)
      ensures if a == p && k == n then x == node else HasEntry(ns, a, k, x)
    {
    }
    if node.Dir? {
      MoveAcyclic(ns, ns', p, node.dir);
    } else {
      FewerEntries(ns, ns');
    }
  }
}

/**
 Which directory entries a resolution uses (diffuzzer/src/abstract_fs/fs.rs, resolve_node_rec), and so exactly
 which paths a removal breaks.
 */
module Uses {
  import opened Pathname
  import opened Nodes
  import opened Resolution
  import opened Operations
  import opened Visibility

  /** A walk looks up entry n of directory d, itself or in the target of a symlink that it enters. */
  ghost predicate WalkUses(ns: Namespace, fuel: nat, segs: seq<Name>, d: nat, n: Name)
    decreases fuel, |segs|, 0
  {
    && segs != []
    && var init := segs[..|segs| - 1];
       || WalkUses(ns, fuel, init, d, n)
       || (Walk(ns, fuel, init).Ok? && StepUses(ns, fuel, Walk(ns, fuel, init).value.node, segs[|segs| - 1], d, n))
  }

  /** The step from a node to a name. */
  ghost predicate StepUses(ns: Namespace, fuel: nat, node: Node, m: Name, d: nat, n: Name)
    decreases fuel, 0, 0
  {
    || (Enter(ns, fuel, node).Ok? && Enter(ns, fuel, node).value.1 == d && m == n)
    || (node.Symlink? && fuel > 0 && node.link < |ns.links| && FollowUses(ns, fuel - 1, ns.links[node.link], true, {}, d, n))
  }

  ghost predicate FollowUses(ns: Namespace, fuel: nat, path: string, follow: bool, visited: set<nat>, d: nat, n: Name)
    decreases fuel, |Segments(path)| + 1, 1
  {
    && IsValid(path)
    && (WalkUses(ns, fuel, Segments(path), d, n) || LastUses(ns, fuel, Walk(ns, fuel, Segments(path)), follow, visited, d, n))
  }

  /** The symlink found last, if it is followed. */
  ghost predicate LastUses(ns: Namespace, fuel: nat, walked: Outcome<Found>, follow: bool, visited: set<nat>, d: nat, n: Name)
    decreases fuel, 0, 0
  {
    && follow && walked.Ok? && walked.value.node.Symlink?
    && var i := walked.value.node.link;
       i !in visited && fuel > 0 && i < |ns.links| && FollowUses(ns, fuel - 1, ns.links[i], true, visited + {i}, d, n)
  }

  /** Resolving a path uses entry n of directory d. */
  ghost predicate Needs(ns: Namespace, path: string, follow: bool, d: nat, n: Name) {
    exists fuel: nat :: FollowUses(ns, fuel, path, follow, {}, d, n)
  }

  // ----- the budget does not matter

  lemma {:induction false} WalkUsesMore(ns: Namespace, f: nat, g: nat, segs: seq<Name>, d: nat, n: Name)
    requires f <= g && WalkUses(ns, f, segs, d, n)
    ensures WalkUses(ns, g, segs, d, n)
    decreases f, |segs|, 0
  {
    var init := segs[..|segs| - 1];
    if WalkUses(ns, f, init, d, n) {
      WalkUsesMore(ns, f, g, init, d, n);
    } else {
      WalkBudget(ns, f, g, init);
      StepUsesMore(ns, f, g, Walk(ns, f, init).value.node, segs[|segs| - 1], d, n);
    }
  }

  lemma {:induction false} StepUsesMore(ns: Namespace, f: nat, g: nat, node: Node, m: Name, d: nat, n: Name)
    requires f <= g && StepUses(ns, f, node, m, d, n)
    ensures StepUses(ns, g, node, m, d, n)
    decreases f, 0, 0
  {
    if Enter(ns, f, node).Ok? && Enter(ns, f, node).value.1 == d && m == n {
      EnterBudget(ns, f, g, node);
    } else {
      FollowUsesMore(ns, f - 1, g - 1, ns.links[node.link], true, {}, d, n);
    }
  }

  lemma {:induction false} FollowUsesMore(ns: Namespace, f: nat, g: nat, path: string, follow: bool, visited: set<nat>, d: nat, n: Name)
    requires f <= g && FollowUses(ns, f, path, follow, visited, d, n)
    ensures FollowUses(ns, g, path, follow, visited, d, n)
    decreases f, |Segments(path)| + 1, 1
  {
    var segs := Segments(path);
    if WalkUses(ns, f, segs, d, n) {
      WalkUsesMore(ns, f, g, segs, d, n);
    } else {
      WalkBudget(ns, f, g, segs);
      LastUsesMore(ns, f, g, Walk(ns, f, segs), follow, visited, d, n);
    }
  }

  lemma {:induction false} LastUsesMore(ns: Namespace, f: nat, g: nat, walked: Outcome<Found>, follow: bool, visited: set<nat>, d: nat, n: Name)
    requires f <= g && LastUses(ns, f, walked, follow, visited, d, n)
    ensures LastUses(ns, g, walked, follow, visited, d, n)
    decreases f, 0, 0
  {
    var i := walked.value.node.link;
    FollowUsesMore(ns, f - 1, g - 1, ns.links[i], true, visited + {i}, d, n);
  }

  // ----- without the entry

  /** A walk that succeeds does so without an entry if and only if it does not use it. */
  lemma {:induction false} WalkWithoutEntry(ns: Namespace, d: nat, n: Name, fuel: nat, segs: seq<Name>)
    requires d < |ns.dirs| && Walk(ns, fuel, segs).Ok?
    ensures Walk(Delete(ns, d, n), fuel, segs).Ok? <==> !WalkUses(ns, fuel, segs, d, n)
    ensures Walk(Delete(ns, d, n), fuel, segs).Ok? ==> Walk(Delete(ns, d, n), fuel, segs) == Walk(ns, fuel, segs)
    decreases fuel, |segs|, 0
  {
    if segs != [] {
      var init, m := segs[..|segs| - 1], segs[|segs| - 1];
      WalkWithoutEntry(ns, d, n, fuel, init);
      EnterWithoutEntry(ns, d, n, fuel, Walk(ns, fuel, init).value.node, m);
    }
  }

  lemma {:induction false} EnterWithoutEntry(ns: Namespace, d: nat, n: Name, fuel: nat, node: Node, m: Name)
    requires d < |ns.dirs| && Enter(ns, fuel, node).Ok?
    ensures var e := Enter(Delete(ns, d, n), fuel, node);
            && (e.Ok? ==> e == Enter(ns, fuel, node))
            && (e.Ok? && !(e.value.1 == d && m == n) <==> !StepUses(ns, fuel, node, m, d, n))
    decreases fuel, 0, 0
  {
    if node.Symlink? {
      FollowWithoutEntry(ns, d, n, fuel - 1, ns.links[node.link], true, {});
    }
  }

  lemma {:induction false} FollowWithoutEntry(ns: Namespace, d: nat, n: Name, fuel: nat, path: string, follow: bool, visited: set<nat>)
    requires d < |ns.dirs| && Follow(ns, fuel, path, follow, visited).Ok?
    ensures Follow(Delete(ns, d, n), fuel, path, follow, visited).Ok? <==> !FollowUses(ns, fuel, path, follow, visited, d, n)
    ensures Follow(Delete(ns, d, n), fuel, path, follow, visited).Ok? ==>
              Follow(Delete(ns, d, n), fuel, path, follow, visited) == Follow(ns, fuel, path, follow, visited)
    decreases fuel, |Segments(path)| + 1, 1
  {
    WalkWithoutEntry(ns, d, n, fuel, Segments(path));
    var node := Walk(ns, fuel, Segments(path)).value.node;
    if follow && node.Symlink? {
      FollowWithoutEntry(ns, d, n, fuel - 1, ns.links[node.link], true, visited + {node.link});
    }
  }

  lemma ResolveWithoutEntry(ns: Namespace, d: nat, n: Name, path: string, follow: bool)
    requires d < |ns.dirs| && Resolve(ns, path, follow).Ok?
    ensures Resolve(Delete(ns, d, n), path, follow).Ok? <==> !Needs(ns, path, follow, d, n)
    ensures Resolve(Delete(ns, d, n), path, follow).Ok? ==> Resolve(Delete(ns, d, n), path, follow) == Resolve(ns, path, follow)
  {
    var ns' := Delete(ns, d, n);
    var f := BudgetOf(ns, path, follow);
    FollowWithoutEntry(ns, d, n, f, path, follow, {});
    if Resolve(ns', path, follow).Ok? {
      DeleteExtends(ns, d, n);
      ResolveExtends(ns', ns, path, follow);
      if g: nat :| FollowUses(ns, g, path, follow, {}, d, n) {
        var h := BudgetOf(ns', path, follow);
        var top := f + g + h;
        FollowBudget(ns, f, top, path, follow, {});
        FollowBudget(ns', h, top, path, follow, {});
        FollowUsesMore(ns, g, top, path, follow, {}, d, n);
        FollowWithoutEntry(ns, d, n, top, path, follow, {});
        assert false;
      }
    } else if !FollowUses(ns, f, path, follow, {}, d, n) {
      ResolveIs(ns', f, path, follow);
      assert false;
    }
  }

  /** After a removal whatever resolved still does, to the same place, if and only if it did not use the removed entry. */
  lemma RemovalKeeps(s: State, gone: string, path: string, follow: bool)
    requires ExecRemove(s, gone).status.Done? && Resolve(s.ns, path, follow).Ok?
    ensures '/' in gone && ParentOf(s.ns, gone).Ok?
    ensures var t := ExecRemove(s, gone).state;
            && (Resolve(t.ns, path, follow).Ok? <==> !Needs(s.ns, path, follow, ParentOf(s.ns, gone).value, Split(gone).1))
            && (Resolve(t.ns, path, follow).Ok? ==> Resolve(t.ns, path, follow) == Resolve(s.ns, path, follow))
  {
    ResolveWithoutEntry(s.ns, ParentOf(s.ns, gone).value, Split(gone).1, path, follow);
  }
}

/**
 Path resolution (diffuzzer/src/abstract_fs/fs.rs, resolve_node_rec and its callers).

 The source recurses through symlinks without a bound. `Walk` and `Follow` take a recursion budget and are
 Stuck when it runs out; `Resolve` is their common answer for every budget that suffices, and Stuck when
 none does.
 */
module Resolution {
  import opened Pathname
  import opened Nodes

  /** Steps through all segments from the root; a symlink that is the last segment is not followed. */
  ghost function Walk(ns: Namespace, fuel: nat, segs: seq<Name>): Outcome<Found>
    decreases fuel, |segs|, 0
  {
    if segs == [] then
      Ok(Found([], Dir(ROOT)))
    else
      match Walk(ns, fuel, segs[..|segs| - 1])
      case Err(e) => Err(e)
      case Stuck => Stuck
      case Ok(f) =>
        match Enter(ns, fuel, f.node)
        case Err(e) => Err(e)
        case Stuck => Stuck
        case Ok((passed, d)) => Lookup(ns, f.passed + passed, d, segs[|segs| - 1])
  }

  /** One child of a directory. */
  ghost function Lookup(ns: Namespace, passed: seq<nat>, d: nat, n: Name): Outcome<Found> {
    if d >= |ns.dirs| then Stuck
    else if n in ns.dirs[d] then Ok(Found(passed + [d], ns.dirs[d][n]))
    else Err(NotFound)
  }

  /** The directory a node in dirname position stands for; the search for symlink loops starts afresh here. */
  ghost function Enter(ns: Namespace, fuel: nat, node: Node): Outcome<(seq<nat>, nat)>
    decreases fuel, 0, 0
  {
    match node
    case Dir(d) => Ok(([], d))
    case File(_) => Err(NotADir)
    case Symlink(i) =>
      if fuel == 0 || i >= |ns.links| then Stuck else AsDir(Follow(ns, fuel - 1, ns.links[i], true, {}))
  }

  ghost function AsDir(r: Outcome<Found>): Outcome<(seq<nat>, nat)> {
    match r
    case Ok(f) => if f.node.Dir? then Ok((f.passed, f.node.dir)) else Err(NotADir)
    case Err(e) => Err(e)
    case Stuck => Stuck
  }

  ghost function AsFile(r: Outcome<Found>): Outcome<nat> {
    match r
    case Ok(f) => if f.node.File? then Ok(f.node.file) else Err(NotAFile)
    case Err(e) => Err(e)
    case Stuck => Stuck
  }

  /** Resolution of a path, given the symlinks already followed as last components. */
  ghost function Follow(ns: Namespace, fuel: nat, path: string, follow: bool, visited: set<nat>): Outcome<Found>
    decreases fuel, |Segments(path)| + 1, 1
  {
    if !IsValid(path) then Err(InvalidPath)
    else Finish(ns, fuel, Walk(ns, fuel, Segments(path)), follow, visited)
  }

  /** What happens after the last segment: a symlink found there is followed if that is asked for. */
  ghost function Finish(ns: Namespace, fuel: nat, walked: Outcome<Found>, follow: bool, visited: set<nat>): Outcome<Found>
    decreases fuel, 0, 0
  {
    if walked.Ok? && walked.value.node.Symlink? && follow then
      var i := walked.value.node.link;
      if i in visited then Err(LoopExists)
      else if fuel == 0 || i >= |ns.links| then Stuck
      else Behind(walked.value.passed, Follow(ns, fuel - 1, ns.links[i], true, visited + {i}))
    else
      walked
  }

  ghost function Behind(passed: seq<nat>, r: Outcome<Found>): Outcome<Found> {
    if r.Ok? then Ok(Found(passed + r.value.passed, r.value.node)) else r
  }

  /** Resolution with whatever budget it takes. */
  ghost function Resolve(ns: Namespace, path: string, follow: bool): Outcome<Found> {
    if exists fuel: nat :: Follow(ns, fuel, path, follow, {}) != Stuck then
      var fuel: nat :| Follow(ns, fuel, path, follow, {}) != Stuck;
      Follow(ns, fuel, path, follow, {})
    else
      Stuck
  }

  ghost function ResolveDir(ns: Namespace, path: string): Outcome<(seq<nat>, nat)> {
    AsDir(Resolve(ns, path, true))
  }

  ghost function ResolveFile(ns: Namespace, path: string): Outcome<nat> {
    AsFile(Resolve(ns, path, true))
  }

  // ----- the budget does not matter once it suffices

  lemma {:induction false} WalkBudget(ns: Namespace, f: nat, g: nat, segs: seq<Name>)
    requires f <= g && Walk(ns, f, segs) != Stuck
    ensures Walk(ns, g, segs) == Walk(ns, f, segs)
    decreases f, |segs|, 0
  {
    if segs != [] {
      WalkBudget(ns, f, g, segs[..|segs| - 1]);
      var w := Walk(ns, f, segs[..|segs| - 1]);
      if w.Ok? {
        EnterBudget(ns, f, g, w.value.node);
      }
    }
  }

  lemma {:induction false} EnterBudget(ns: Namespace, f: nat, g: nat, node: Node)
    requires f <= g && Enter(ns, f, node) != Stuck
    ensures Enter(ns, g, node) == Enter(ns, f, node)
    decreases f, 0, 0
  {
    if node.Symlink? {
      FollowBudget(ns, f - 1, g - 1, ns.links[node.link], true, {});
    }
  }

  lemma {:induction false} FollowBudget(ns: Namespace, f: nat, g: nat, path: string, follow: bool, visited: set<nat>)
    requires f <= g && Follow(ns, f, path, follow, visited) != Stuck
    ensures Follow(ns, g, path, follow, visited) == Follow(ns, f, path, follow, visited)
    decreases f, |Segments(path)| + 1, 1
  {
    if IsValid(path) {
      var w := Walk(ns, f, Segments(path));
      WalkBudget(ns, f, g, Segments(path));
      if w.Ok? && w.value.node.Symlink? && follow && w.value.node.link !in visited {
        FollowBudget(ns, f - 1, g - 1, ns.links[w.value.node.link], true, visited + {w.value.node.link});
      }
    }
  }

  /** Any sufficient budget gives the answer of Resolve. */
  lemma ResolveIs(ns: Namespace, fuel: nat, path: string, follow: bool)
    requires Follow(ns, fuel, path, follow, {}) != Stuck
    ensures Resolve(ns, path, follow) == Follow(ns, fuel, path, follow, {})
  {
    var g: nat :| Follow(ns, g, path, follow, {}) != Stuck && Resolve(ns, path, follow) == Follow(ns, g, path, follow, {});
    if g <= fuel {
      FollowBudget(ns, g, fuel, path, follow, {});
    } else {
      FollowBudget(ns, fuel, g, path, follow, {});
    }
  }

  /** A budget for a resolution that ends. */
  lemma BudgetOf(ns: Namespace, path: string, follow: bool) returns (fuel: nat)
    requires Resolve(ns, path, follow) != Stuck
    ensures Follow(ns, fuel, path, follow, {}) == Resolve(ns, path, follow)
  {
    fuel :| Follow(ns, fuel, path, follow, {}) != Stuck;
    ResolveIs(ns, fuel, path, follow);
  }

  // ----- the visited list only ever turns endless loops into errors

  /** Forgetting visited symlinks keeps every success. */
  lemma {:induction false} ForgetVisited(ns: Namespace, fuel: nat, path: string, visited: set<nat>, less: set<nat>)
    requires less <= visited && Follow(ns, fuel, path, true, visited).Ok?
    ensures Follow(ns, fuel, path, true, less) == Follow(ns, fuel, path, true, visited)
    decreases fuel
  {
    var w := Walk(ns, fuel, Segments(path));
    if w.value.node.Symlink? {
      var i := w.value.node.link;
      ForgetVisited(ns, fuel - 1, ns.links[i], visited + {i}, less + {i});
    }
  }

  /** Remembering a symlink spoils a success only when the success goes through that symlink again. */
  lemma {:induction false} RememberVisited(ns: Namespace, fuel: nat, path: string, visited: set<nat>, i: nat) returns (g: nat)
    requires Follow(ns, fuel, path, true, visited).Ok?
    requires Follow(ns, fuel, path, true, visited + {i}) != Follow(ns, fuel, path, true, visited)
    ensures g < fuel && i < |ns.links| && Follow(ns, g, ns.links[i], true, visited).Ok?
    decreases fuel
  {
    var w := Walk(ns, fuel, Segments(path));
    var j := w.value.node.link;
    if j == i {
      g := fuel - 1;
      ForgetVisited(ns, g, ns.links[i], visited + {i}, visited);
    } else {
      assert visited + {i} + {j} == visited + {j} + {i};
      g := RememberVisited(ns, fuel - 1, ns.links[j], visited + {j}, i);
      ForgetVisited(ns, g, ns.links[i], visited + {j}, visited);
    }
  }

  /** Resolving a symlink's own target: it makes no difference to a success whether that symlink counts as visited. */
  lemma {:induction false} TargetVisited(ns: Namespace, fuel: nat, i: nat, visited: set<nat>)
    requires i < |ns.links|
    requires Follow(ns, fuel, ns.links[i], true, visited).Ok?
    ensures Follow(ns, fuel, ns.links[i], true, visited + {i}) == Follow(ns, fuel, ns.links[i], true, visited)
    decreases fuel
  {
    if Follow(ns, fuel, ns.links[i], true, visited + {i}) != Follow(ns, fuel, ns.links[i], true, visited) {
      var g := RememberVisited(ns, fuel, ns.links[i], visited, i);
      TargetVisited(ns, g, i, visited);
      FollowBudget(ns, g, fuel, ns.links[i], true, visited + {i});
      FollowBudget(ns, g, fuel, ns.links[i], true, visited);
      assert false;
    }
  }

  /** Following a node as a last component and entering it as a dirname component succeed on the same directories. */
  lemma FinishIsEnter(ns: Namespace, fuel: nat, f: Found)
    ensures AsDir(Finish(ns, fuel, Ok(f), true, {})).Ok? <==> Enter(ns, fuel, f.node).Ok?
    ensures Enter(ns, fuel, f.node).Ok? ==>
              Finish(ns, fuel, Ok(f), true, {})
              == Ok(Found(f.passed + Enter(ns, fuel, f.node).value.0, Dir(Enter(ns, fuel, f.node).value.1)))
  {
    if f.node.Symlink? && fuel > 0 && f.node.link < |ns.links| {
      var i := f.node.link;
      assert {} + {i} == {i};
      if Follow(ns, fuel - 1, ns.links[i], true, {}).Ok? {
        TargetVisited(ns, fuel - 1, i, {});
      }
      if Follow(ns, fuel - 1, ns.links[i], true, {i}).Ok? {
        ForgetVisited(ns, fuel - 1, ns.links[i], {i}, {});
      }
    } else if f.node.Dir? {
      assert f.passed + [] == f.passed;
    }
  }

  // ----- resolving a joined path

  /**
   A path one segment longer than `parent` leads, unfollowed, to a child of the directory the parent leads to,
   and passes the parent's directories and then that one.
   */
  lemma JoinBudget(ns: Namespace, fuel: nat, parent: string, path: string, n: Name)
    requires IsValid(parent) && IsValid(path) && Segments(path) == Segments(parent) + [n]
    ensures Follow(ns, fuel, path, false, {}).Ok? <==>
              var p := AsDir(Follow(ns, fuel, parent, true, {}));
              p.Ok? && p.value.1 < |ns.dirs| && n in ns.dirs[p.value.1]
    ensures Follow(ns, fuel, path, false, {}).Ok? ==>
              var p := AsDir(Follow(ns, fuel, parent, true, {}));
              Follow(ns, fuel, path, false, {}) == Ok(Found(p.value.0 + [p.value.1], ns.dirs[p.value.1][n]))
  {
    var init := Segments(parent);
    assert Segments(path)[..|init|] == init;
    var w := Walk(ns, fuel, init);
    if w.Ok? {
      FinishIsEnter(ns, fuel, w.value);
    }
  }

  lemma JoinResolves(ns: Namespace, parent: string, path: string, n: Name)
    requires IsValid(parent) && IsValid(path) && Segments(path) == Segments(parent) + [n]
    ensures Resolve(ns, path, false).Ok? <==>
              var p := ResolveDir(ns, parent);
              p.Ok? && p.value.1 < |ns.dirs| && n in ns.dirs[p.value.1]
    ensures Resolve(ns, path, false).Ok? ==>
              var p := ResolveDir(ns, parent);
              Resolve(ns, path, false) == Ok(Found(p.value.0 + [p.value.1], ns.dirs[p.value.1][n]))
  {
    if Resolve(ns, path, false).Ok? {
      var fuel := BudgetOf(ns, path, false);
      JoinBudget(ns, fuel, parent, path, n);
      ResolveIs(ns, fuel, parent, true);
    }
    if ResolveDir(ns, parent).Ok? {
      var fuel := BudgetOf(ns, parent, true);
      JoinBudget(ns, fuel, parent, path, n);
      if Follow(ns, fuel, path, false, {}).Ok? {
        ResolveIs(ns, fuel, path, false);
      }
    }
  }

  /** Without a symlink at its end a path resolves alike followed and unfollowed. */
  lemma PlainResolves(ns: Namespace, path: string)
    requires Resolve(ns, path, false).Ok? && !Resolve(ns, path, false).value.node.Symlink?
    ensures Resolve(ns, path, true) == Resolve(ns, path, false)
  {
    var fuel := BudgetOf(ns, path, false);
    ResolveIs(ns, fuel, path, true);
  }

  lemma LinkResolvesTo(ns: Namespace, path: string, passed: seq<nat>, i: nat)
    requires Resolve(ns, path, false) == Ok(Found(passed, Symlink(i))) && i < |ns.links|
    requires Resolve(ns, ns.links[i], true).Ok?
    ensures Resolve(ns, path, true) == Behind(passed, Resolve(ns, ns.links[i], true))
  {
    var fuel := BudgetOf(ns, path, false);
    var g := BudgetOf(ns, ns.links[i], true);
    var top := if fuel <= g then g + 1 else fuel + 1;
    assert Follow(ns, top - 1, ns.links[i], true, {} + {i}) == Resolve(ns, ns.links[i], true) by {
      FollowBudget(ns, g, top - 1, ns.links[i], true, {});
      TargetVisited(ns, top - 1, i, {});
    }
    FollowBudget(ns, fuel, top, path, false, {});
    FinishAtLink(ns, top, path, passed, i);
    ResolveIs(ns, top, path, true);
  }

  lemma FinishAtLink(ns: Namespace, fuel: nat, path: string, passed: seq<nat>, i: nat)
    requires Follow(ns, fuel, path, false, {}) == Ok(Found(passed, Symlink(i))) && i < |ns.links| && fuel > 0
    ensures Follow(ns, fuel, path, true, {}) == Behind(passed, Follow(ns, fuel - 1, ns.links[i], true, {} + {i}))
  {
  }

  lemma LinkResolvedFrom(ns: Namespace, path: string, passed: seq<nat>, i: nat)
    requires Resolve(ns, path, false) == Ok(Found(passed, Symlink(i))) && i < |ns.links|
    requires Resolve(ns, path, true).Ok?
    ensures Resolve(ns, ns.links[i], true).Ok?
  {
    var fuel := BudgetOf(ns, path, false);
    var g := BudgetOf(ns, path, true);
    var top := if fuel <= g then g else fuel;
    FollowBudget(ns, fuel, top, path, false, {});
    FollowBudget(ns, g, top, path, true, {});
    ForgetVisited(ns, top - 1, ns.links[i], {} + {i}, {});
    ResolveIs(ns, top - 1, ns.links[i], true);
  }

  /** A path that ends in a symlink leads, followed, to where the symlink's target leads. */
  lemma LinkResolves(ns: Namespace, path: string, passed: seq<nat>, i: nat)
    requires Resolve(ns, path, false) == Ok(Found(passed, Symlink(i))) && i < |ns.links|
    ensures Resolve(ns, path, true).Ok? <==> Resolve(ns, ns.links[i], true).Ok?
    ensures Resolve(ns, ns.links[i], true).Ok? ==> Resolve(ns, path, true) == Behind(passed, Resolve(ns, ns.links[i], true))
  {
    if Resolve(ns, path, true).Ok? {
      LinkResolvedFrom(ns, path, passed, i);
    }
    if Resolve(ns, ns.links[i], true).Ok? {
      LinkResolvesTo(ns, path, passed, i);
    }
  }
}

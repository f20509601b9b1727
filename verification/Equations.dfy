/**
 Path resolution by equations (diffuzzer/src/abstract_fs/fs.rs, resolve_node_rec): what a path resolves to,
 errors and endless recursion included, from what its parent or its target resolves to. No budget and no
 visited list occurs in them.
 */
module Equations {
  import opened Pathname
  import opened Nodes
  import opened Resolution

  // ----- a symlink's target, with and without the symlink counted as visited

  /** Where a followed path ends in a symlink that has not been visited, its target is resolved next. */
  lemma FollowLast(ns: Namespace, fuel: nat, path: string, visited: set<nat>, i: nat)
    requires IsValid(path) && Walk(ns, fuel, Segments(path)).Ok? && Walk(ns, fuel, Segments(path)).value.node == Symlink(i)
    ensures Follow(ns, fuel, path, true, visited) ==
              if i in visited then Err(LoopExists)
              else if fuel == 0 || i >= |ns.links| then Stuck
              else Behind(Walk(ns, fuel, Segments(path)).value.passed, Follow(ns, fuel - 1, ns.links[i], true, visited + {i}))
  {
  }

  lemma FollowOther(ns: Namespace, fuel: nat, path: string, visited: set<nat>)
    requires IsValid(path)
    requires var w := Walk(ns, fuel, Segments(path)); w.Ok? ==> !w.value.node.Symlink?
    ensures Follow(ns, fuel, path, true, visited) == Walk(ns, fuel, Segments(path))
  {
  }

  predicate EndsIn(w: Outcome<Found>, i: nat) {
    w.Ok? && w.value.node == Symlink(i)
  }

  /** The target of symlink i ends in symlink j. */
  ghost predicate LeadsOn(ns: Namespace, h: nat, i: nat, j: nat) {
    i < |ns.links| && IsValid(ns.links[i]) && EndsIn(Walk(ns, h, Segments(ns.links[i])), j)
  }

  /** Where the target of i ends in a symlink already visited, resolving it again is a loop. */
  lemma LoopAgain(ns: Namespace, h: nat, g: nat, i: nat, j: nat, visited: set<nat>)
    requires LeadsOn(ns, h, i, j) && j in visited
    ensures g >= h || Follow(ns, g, ns.links[i], true, visited) != Stuck ==> Follow(ns, g, ns.links[i], true, visited) == Err(LoopExists)
  {
    var segs := Segments(ns.links[i]);
    if g >= h || Walk(ns, g, segs) != Stuck {
      if g >= h { WalkBudget(ns, h, g, segs); } else { WalkBudget(ns, g, h, segs); }
      FollowLast(ns, g, ns.links[i], visited, j);
    }
  }

  /** Counting a symlink as visited makes no difference on a path that was reached from its target. */
  lemma {:induction false} Anchored(ns: Namespace, h: nat, g: nat, path: string, visited: set<nat>, i: nat, j: nat)
    requires LeadsOn(ns, h, i, j) && j in visited + {i}
    requires Follow(ns, g, path, true, visited) != Stuck
    ensures Follow(ns, g, path, true, visited + {i}) == Follow(ns, g, path, true, visited)
    decreases g
  {
    if IsValid(path) {
      var w := Walk(ns, g, Segments(path));
      if w.Ok? && w.value.node.Symlink? {
        var k := w.value.node.link;
        FollowLast(ns, g, path, visited, k);
        FollowLast(ns, g, path, visited + {i}, k);
        if k !in visited {
          if k == i {
            LoopAgain(ns, h, g - 1, i, j, visited + {i});
          } else {
            Anchored(ns, h, g - 1, ns.links[k], visited + {k}, i, j);
            assert visited + {i} + {k} == visited + {k} + {i};
          }
        }
      } else {
        FollowOther(ns, g, path, visited);
        FollowOther(ns, g, path, visited + {i});
      }
    }
  }

  /** Nor does it decide whether the resolution ends. */
  lemma {:induction false} AnchoredEnds(ns: Namespace, h: nat, g: nat, top: nat, path: string, visited: set<nat>, i: nat, j: nat)
    requires LeadsOn(ns, h, i, j) && j in visited + {i}
    requires Follow(ns, g, path, true, visited + {i}) != Stuck && top > g + h
    ensures Follow(ns, top, path, true, visited) != Stuck
    decreases g
  {
    if IsValid(path) {
      var w := Walk(ns, g, Segments(path));
      WalkBudget(ns, g, top, Segments(path));
      if w.Ok? && w.value.node.Symlink? {
        var k := w.value.node.link;
        FollowLast(ns, top, path, visited, k);
        FollowLast(ns, g, path, visited + {i}, k);
        if k !in visited {
          if k == i {
            LoopAgain(ns, h, top - 1, i, j, visited + {i});
          } else {
            assert visited + {i} + {k} == visited + {k} + {i};
            AnchoredEnds(ns, h, g - 1, top - 1, ns.links[k], visited + {k}, i, j);
          }
        }
      } else {
        FollowOther(ns, top, path, visited);
      }
    }
  }

  lemma TargetSame(ns: Namespace, g: nat, i: nat)
    requires i < |ns.links| && Follow(ns, g, ns.links[i], true, {}) != Stuck
    ensures Follow(ns, g, ns.links[i], true, {i}) == Follow(ns, g, ns.links[i], true, {})
  {
    var path := ns.links[i];
    assert {} + {i} == {i};
    if IsValid(path) {
      var w := Walk(ns, g, Segments(path));
      if w.Ok? && w.value.node.Symlink? {
        var j := w.value.node.link;
        assert LeadsOn(ns, g, i, j);
        FollowLast(ns, g, path, {}, j);
        FollowLast(ns, g, path, {i}, j);
        if j == i {
          Anchored(ns, g, g, path, {}, i, j);
        } else {
          assert {} + {j} == {j} && {i} + {j} == {j} + {i};
          Anchored(ns, g, g - 1, ns.links[j], {j}, i, j);
        }
      } else {
        FollowOther(ns, g, path, {});
        FollowOther(ns, g, path, {i});
      }
    }
  }

  lemma TargetEnds(ns: Namespace, g: nat, top: nat, i: nat)
    requires i < |ns.links| && Follow(ns, g, ns.links[i], true, {i}) != Stuck && top > g + g
    ensures Follow(ns, top, ns.links[i], true, {}) != Stuck
  {
    var path := ns.links[i];
    assert {} + {i} == {i};
    if IsValid(path) {
      var w := Walk(ns, g, Segments(path));
      WalkBudget(ns, g, top, Segments(path));
      if w.Ok? && w.value.node.Symlink? {
        var j := w.value.node.link;
        assert LeadsOn(ns, g, i, j);
        if j == i {
          AnchoredEnds(ns, g, g, top, path, {}, i, j);
        } else {
          FollowLast(ns, top, path, {}, j);
          FollowLast(ns, g, path, {i}, j);
          assert {} + {j} == {j} && {i} + {j} == {j} + {i};
          AnchoredEnds(ns, g, g - 1, top - 1, ns.links[j], {j}, i, j);
        }
      } else {
        FollowOther(ns, top, path, {});
      }
    }
  }

  // ----- the equations

  /** An invalid path is an error, whatever there is. */
  lemma InvalidExact(ns: Namespace, path: string, follow: bool)
    ensures !IsValid(path) ==> Resolve(ns, path, follow) == Err(InvalidPath)
  {
    if !IsValid(path) {
      ResolveIs(ns, 0, path, follow);
    }
  }

  lemma RootExact(ns: Namespace, follow: bool)
    ensures Resolve(ns, "/", follow) == Ok(Found([], Dir(ROOT)))
  {
    SegmentsOfRoot();
    ResolveIs(ns, 0, "/", follow);
  }

  /** A path that does not end in a symlink resolves alike followed and unfollowed, errors included. */
  lemma PlainExact(ns: Namespace, path: string)
    requires Resolve(ns, path, false).Ok? ==> !Resolve(ns, path, false).value.node.Symlink?
    ensures Resolve(ns, path, true) == Resolve(ns, path, false)
  {
    if Resolve(ns, path, true) != Stuck {
      var fuel := BudgetOf(ns, path, true);
      UnfollowedEnds(ns, fuel, path);
      ResolveIs(ns, fuel, path, false);
    }
    if Resolve(ns, path, false) != Stuck {
      var fuel := BudgetOf(ns, path, false);
      ResolveIs(ns, fuel, path, true);
    }
  }

  lemma UnfollowedEnds(ns: Namespace, fuel: nat, path: string)
    requires Follow(ns, fuel, path, true, {}) != Stuck
    ensures Follow(ns, fuel, path, false, {}) != Stuck
  {
  }

  lemma LinkEnds(ns: Namespace, path: string, passed: seq<nat>, i: nat)
    requires Resolve(ns, path, false) == Ok(Found(passed, Symlink(i))) && i < |ns.links|
    requires Resolve(ns, path, true) != Stuck
    ensures Resolve(ns, ns.links[i], true) != Stuck
  {
    var f := BudgetOf(ns, path, false);
    var g := BudgetOf(ns, path, true);
    var top := f + g;
    assert {} + {i} == {i};
    FollowBudget(ns, f, top, path, false, {});
    FollowBudget(ns, g, top, path, true, {});
    FollowLast(ns, top, path, {}, i);
    TargetEnds(ns, top - 1, top + top, i);
    ResolveIs(ns, top + top, ns.links[i], true);
  }

  /** A path that ends in a symlink resolves, followed, to just what the target resolves to: result, error, or no end. */
  lemma LinkExact(ns: Namespace, path: string, passed: seq<nat>, i: nat)
    requires Resolve(ns, path, false) == Ok(Found(passed, Symlink(i))) && i < |ns.links|
    ensures Resolve(ns, path, true) == Behind(passed, Resolve(ns, ns.links[i], true))
  {
    if Resolve(ns, path, true) != Stuck {
      LinkEnds(ns, path, passed, i);
    }
    if Resolve(ns, ns.links[i], true) != Stuck {
      var f := BudgetOf(ns, path, false);
      var g := BudgetOf(ns, ns.links[i], true);
      var top := f + g + 1;
      assert {} + {i} == {i};
      FollowBudget(ns, f, top, path, false, {});
      FollowBudget(ns, g, top - 1, ns.links[i], true, {});
      TargetSame(ns, top - 1, i);
      FollowLast(ns, top, path, {}, i);
      ResolveIs(ns, top, path, true);
    }
  }

  /** What a child resolves to, given what the parent does. */
  ghost function ChildOf(ns: Namespace, parent: Outcome<Found>, n: Name): Outcome<Found> {
    match parent
    case Err(e) => Err(e)
    case Stuck => Stuck
    case Ok(f) =>
      if !f.node.Dir? then Err(NotADir)
      else if f.node.dir >= |ns.dirs| then Stuck
      else if n in ns.dirs[f.node.dir] then Ok(Found(f.passed + [f.node.dir], ns.dirs[f.node.dir][n]))
      else Err(NotFound)
  }

  /** Where a directory is wanted. */
  lemma DirExact(ns: Namespace, path: string)
    ensures ResolveDir(ns, path) ==
              match Resolve(ns, path, true)
              case Err(e) => Err(e)
              case Stuck => Stuck
              case Ok(f) => if f.node.Dir? then Ok((f.passed, f.node.dir)) else Err(NotADir)
  {
  }

  /** Where a file is wanted. */
  lemma FileExact(ns: Namespace, path: string)
    ensures ResolveFile(ns, path) ==
              match Resolve(ns, path, true)
              case Err(e) => Err(e)
              case Stuck => Stuck
              case Ok(f) => if f.node.File? then Ok(f.node.file) else Err(NotAFile)
  {
  }

  lemma StuckAlways(ns: Namespace, path: string, follow: bool, fuel: nat)
    requires Resolve(ns, path, follow) == Stuck
    ensures Follow(ns, fuel, path, follow, {}) == Stuck
  {
    if Follow(ns, fuel, path, follow, {}) != Stuck {
      ResolveIs(ns, fuel, path, follow);
    }
  }

  lemma StuckFrom(ns: Namespace, path: string, follow: bool, h: nat)
    requires forall f: nat :: f >= h ==> Follow(ns, f, path, follow, {}) == Stuck
    ensures Resolve(ns, path, follow) == Stuck
  {
    forall g: nat
      ensures Follow(ns, g, path, follow, {}) == Stuck
    {
      if Follow(ns, g, path, follow, {}) != Stuck {
        FollowBudget(ns, g, g + h, path, follow, {});
        assert false;
      }
    }
  }

  /** If all budgets from some on give an answer, it is the one. */
  lemma AnswerFrom(ns: Namespace, path: string, follow: bool, h: nat, r: Outcome<Found>)
    requires forall f: nat :: f >= h ==> Follow(ns, f, path, follow, {}) == r
    ensures Resolve(ns, path, follow) == r
  {
    if r == Stuck {
      StuckFrom(ns, path, follow, h);
    } else {
      ResolveIs(ns, h, path, follow);
    }
  }

  /** The step on from where a walk has come to. */
  ghost function StepOn(ns: Namespace, fuel: nat, walked: Outcome<Found>, n: Name): Outcome<Found> {
    if !walked.Ok? then walked
    else
      match Enter(ns, fuel, walked.value.node)
      case Err(e) => Err(e)
      case Stuck => Stuck
      case Ok((passed, d)) => Lookup(ns, walked.value.passed + passed, d, n)
  }

  lemma LastStep(ns: Namespace, fuel: nat, parent: string, path: string, n: Name)
    requires IsValid(parent) && IsValid(path) && Segments(path) == Segments(parent) + [n]
    ensures Follow(ns, fuel, path, false, {}) == StepOn(ns, fuel, Walk(ns, fuel, Segments(parent)), n)
  {
    var init := Segments(parent);
    assert Segments(path)[..|init|] == init;
  }

  /** The symlink that a parent ends in leads into its target. */
  lemma JoinBehind(ns: Namespace, parent: string, path: string, n: Name, passed: seq<nat>, i: nat)
    requires IsValid(parent) && IsValid(path) && Segments(path) == Segments(parent) + [n]
    requires Resolve(ns, parent, false) == Ok(Found(passed, Symlink(i))) && i < |ns.links|
    ensures Resolve(ns, path, false) == ChildOf(ns, Behind(passed, Resolve(ns, ns.links[i], true)), n)
  {
    var f := BudgetOf(ns, parent, false);
    var r := Resolve(ns, ns.links[i], true);
    if r != Stuck {
      var g := BudgetOf(ns, ns.links[i], true);
      if r.Ok? { FollowedNoSymlink(ns, g, ns.links[i], {}); }
      forall h: nat | h >= f + g + 1
        ensures Follow(ns, h, path, false, {}) == ChildOf(ns, Behind(passed, r), n)
      {
        FollowBudget(ns, f, h, parent, false, {});
        FollowBudget(ns, g, h - 1, ns.links[i], true, {});
        LastStep(ns, h, parent, path, n);
      }
      AnswerFrom(ns, path, false, f + g + 1, ChildOf(ns, Behind(passed, r), n));
    } else {
      forall h: nat | h >= f
        ensures Follow(ns, h, path, false, {}) == Stuck
      {
        FollowBudget(ns, f, h, parent, false, {});
        LastStep(ns, h, parent, path, n);
        if h > 0 { StuckAlways(ns, ns.links[i], true, h - 1); }
      }
      StuckFrom(ns, path, false, f);
    }
  }

  lemma {:induction false} FollowedNoSymlink(ns: Namespace, fuel: nat, path: string, visited: set<nat>)
    requires Follow(ns, fuel, path, true, visited).Ok?
    ensures !Follow(ns, fuel, path, true, visited).value.node.Symlink?
    decreases fuel
  {
    var w := Walk(ns, fuel, Segments(path));
    if w.value.node.Symlink? {
      var i := w.value.node.link;
      FollowedNoSymlink(ns, fuel - 1, ns.links[i], visited + {i});
    }
  }

  /** A parent that ends in no symlink. */
  lemma JoinPlain(ns: Namespace, parent: string, path: string, n: Name)
    requires IsValid(parent) && IsValid(path) && Segments(path) == Segments(parent) + [n]
    requires Resolve(ns, parent, false).Ok? ==> !Resolve(ns, parent, false).value.node.Symlink?
    ensures Resolve(ns, path, false) == ChildOf(ns, Resolve(ns, parent, false), n)
  {
    var r := Resolve(ns, parent, false);
    if r != Stuck {
      var f := BudgetOf(ns, parent, false);
      forall h: nat | h >= f
        ensures Follow(ns, h, path, false, {}) == ChildOf(ns, r, n)
      {
        FollowBudget(ns, f, h, parent, false, {});
        LastStep(ns, h, parent, path, n);
        if r.Ok? { assert r.value.passed + [] == r.value.passed; }
      }
      AnswerFrom(ns, path, false, f, ChildOf(ns, r, n));
    } else {
      forall h: nat
        ensures Follow(ns, h, path, false, {}) == Stuck
      {
        StuckAlways(ns, parent, false, h);
        LastStep(ns, h, parent, path, n);
      }
      StuckFrom(ns, path, false, 0);
    }
  }

  /** A symlink index out of range. */
  lemma JoinNowhere(ns: Namespace, parent: string, path: string, n: Name)
    requires IsValid(parent) && IsValid(path) && Segments(path) == Segments(parent) + [n]
    requires Resolve(ns, parent, false).Ok? && Resolve(ns, parent, false).value.node.Symlink?
    requires Resolve(ns, parent, false).value.node.link >= |ns.links|
    ensures Resolve(ns, path, false) == Stuck && Resolve(ns, parent, true) == Stuck
  {
    var f := BudgetOf(ns, parent, false);
    forall h: nat | h >= f
      ensures Follow(ns, h, path, false, {}) == Stuck && Follow(ns, h, parent, true, {}) == Stuck
    {
      FollowBudget(ns, f, h, parent, false, {});
      LastStep(ns, h, parent, path, n);
      FollowLast(ns, h, parent, {}, Resolve(ns, parent, false).value.node.link);
    }
    StuckFrom(ns, path, false, f);
    StuckFrom(ns, parent, true, f);
  }

  /**
   A path one segment longer than its parent resolves, unfollowed, to the child of the directory that the
   parent resolves to; NotFound if there is none, NotADir if the parent is no directory, and else as the
   parent does, errors and endless recursion included.
   */
  lemma JoinExact(ns: Namespace, parent: string, path: string, n: Name)
    requires IsValid(parent) && IsValid(path) && Segments(path) == Segments(parent) + [n]
    ensures Resolve(ns, path, false) == ChildOf(ns, Resolve(ns, parent, true), n)
  {
    var r := Resolve(ns, parent, false);
    if r.Ok? && r.value.node.Symlink? {
      var i := r.value.node.link;
      if i < |ns.links| {
        LinkExact(ns, parent, r.value.passed, i);
        JoinBehind(ns, parent, path, n, r.value.passed, i);
      } else {
        JoinNowhere(ns, parent, path, n);
      }
    } else {
      JoinPlain(ns, parent, path, n);
      PlainExact(ns, parent);
    }
  }

  /** Of a path only its segments matter. */
  lemma SegmentsDecide(ns: Namespace, p: string, q: string, follow: bool)
    requires IsValid(p) && IsValid(q) && Segments(p) == Segments(q)
    ensures Resolve(ns, p, follow) == Resolve(ns, q, follow)
  {
    forall fuel: nat
      ensures Follow(ns, fuel, p, follow, {}) == Follow(ns, fuel, q, follow, {})
    {
    }
    if Resolve(ns, p, follow) != Stuck {
      var fuel := BudgetOf(ns, p, follow);
      ResolveIs(ns, fuel, q, follow);
    }
    if Resolve(ns, q, follow) != Stuck {
      var fuel := BudgetOf(ns, q, follow);
      ResolveIs(ns, fuel, p, follow);
    }
  }

  // ----- loops of symlinks as last components

  /** A path ends in the first of some symlinks, and the target of each in the next. */
  ghost predicate LastChain(ns: Namespace, path: string, c: seq<nat>) {
    && c != []
    && EndsIn(Resolve(ns, path, false), c[0])
    && (forall k :: 0 <= k < |c| ==> c[k] < |ns.links|)
    && (forall k :: 0 <= k < |c| - 1 ==> EndsIn(Resolve(ns, ns.links[c[k]], false), c[k + 1]))
  }

  predicate ComesBack(c: seq<nat>) {
    c != [] && c[|c| - 1] in c[..|c| - 1]
  }

  /** Following the path as last component comes back to a symlink, or to a target that is itself such a loop on the way. */
  ghost predicate LoopsLast(ns: Namespace, path: string) {
    || Resolve(ns, path, false) == Err(LoopExists)
    || exists c :: LastChain(ns, path, c) && (ComesBack(c) || Resolve(ns, ns.links[c[|c| - 1]], false) == Err(LoopExists))
  }

  lemma UnfollowedIs(ns: Namespace, fuel: nat, path: string)
    requires IsValid(path) && Walk(ns, fuel, Segments(path)) != Stuck
    ensures Resolve(ns, path, false) == Walk(ns, fuel, Segments(path))
  {
    ResolveIs(ns, fuel, path, false);
  }

  lemma {:induction false} FindChain(ns: Namespace, fuel: nat, path: string, visited: set<nat>) returns (c: seq<nat>)
    requires Follow(ns, fuel, path, true, visited) == Err(LoopExists) && forall i :: i in visited ==> i < |ns.links|
    ensures c == [] ==> Resolve(ns, path, false) == Err(LoopExists)
    ensures c != [] ==> LastChain(ns, path, c)
    ensures c != [] ==> c[|c| - 1] in visited || ComesBack(c) || Resolve(ns, ns.links[c[|c| - 1]], false) == Err(LoopExists)
    decreases fuel
  {
    var w := Walk(ns, fuel, Segments(path));
    UnfollowedIs(ns, fuel, path);
    if w.Err? {
      c := [];
    } else {
      var j := w.value.node.link;
      FollowLast(ns, fuel, path, visited, j);
      if j in visited {
        c := [j];
      } else {
        var rest := FindChain(ns, fuel - 1, ns.links[j], visited + {j});
        c := [j] + rest;
        ChainOn(ns, path, j, rest);
        if rest != [] {
          assert c[..|c| - 1] == [j] + rest[..|rest| - 1];
          assert c[|c| - 1] == rest[|rest| - 1];
        }
      }
    }
  }

  lemma ChainOn(ns: Namespace, path: string, j: nat, rest: seq<nat>)
    requires EndsIn(Resolve(ns, path, false), j) && j < |ns.links| && (rest != [] ==> LastChain(ns, ns.links[j], rest))
    ensures LastChain(ns, path, [j] + rest)
  {
    var c := [j] + rest;
    forall k | 0 <= k < |c| - 1
      ensures EndsIn(Resolve(ns, ns.links[c[k]], false), c[k + 1])
    {
      if k > 0 { assert c[k] == rest[k - 1] && c[k + 1] == rest[k]; }
    }
  }

  lemma OneBudget(ns: Namespace, path: string, i: nat) returns (b: nat)
    requires EndsIn(Resolve(ns, path, false), i)
    ensures IsValid(path) && forall f: nat :: f >= b ==> EndsIn(Walk(ns, f, Segments(path)), i)
  {
    b := BudgetOf(ns, path, false);
    forall f: nat | f >= b
      ensures EndsIn(Walk(ns, f, Segments(path)), i)
    {
      FollowBudget(ns, b, f, path, false, {});
    }
  }

  lemma {:induction false} ChainBudget(ns: Namespace, path: string, c: seq<nat>) returns (b: nat)
    requires LastChain(ns, path, c)
    ensures forall f: nat :: f >= b ==> EnoughFrom(ns, path, c, f)
    decreases |c|
  {
    var b0 := OneBudget(ns, path, c[0]);
    if |c| == 1 {
      b := b0;
    } else {
      TailChain(ns, path, c);
      var b1 := ChainBudget(ns, ns.links[c[0]], c[1..]);
      b := b0 + b1;
    }
  }

  /** A budget with which every target of a chain resolves unfollowed. */
  ghost predicate EnoughFrom(ns: Namespace, path: string, c: seq<nat>, f: nat)
    decreases |c|
  {
    && IsValid(path) && c != [] && EndsIn(Walk(ns, f, Segments(path)), c[0])
    && (|c| > 1 ==> c[0] < |ns.links| && EnoughFrom(ns, ns.links[c[0]], c[1..], f))
  }

  lemma TailChain(ns: Namespace, path: string, c: seq<nat>)
    requires LastChain(ns, path, c) && |c| > 1
    ensures LastChain(ns, ns.links[c[0]], c[1..])
  {
    forall k | 0 <= k < |c[1..]| - 1
      ensures EndsIn(Resolve(ns, ns.links[c[1..][k]], false), c[1..][k + 1])
    {
      assert c[1..][k] == c[k + 1] && c[1..][k + 1] == c[k + 1 + 1];
    }
    assert EndsIn(Resolve(ns, ns.links[c[0]], false), c[0 + 1]);
  }

  /** A chain whose last symlink has been visited, or comes earlier in it, ends in the loop error. */
  lemma {:induction false} ChainLoops(ns: Namespace, path: string, c: seq<nat>, b: nat, fuel: nat, visited: set<nat>)
    requires LastChain(ns, path, c) && (forall f: nat :: f >= b ==> EnoughFrom(ns, path, c, f)) && fuel > b + |c|
    requires c[|c| - 1] in visited || ComesBack(c)
    ensures Follow(ns, fuel, path, true, visited) == Err(LoopExists)
    decreases |c|
  {
    assert EnoughFrom(ns, path, c, fuel);
    FollowLast(ns, fuel, path, visited, c[0]);
    if c[0] !in visited {
      var rest := c[1..];
      assert |c| > 1;
      TailChain(ns, path, c);
      forall f: nat | f >= b
        ensures EnoughFrom(ns, ns.links[c[0]], rest, f)
      {
        assert EnoughFrom(ns, path, c, f);
      }
      TailComesBack(c, visited);
      assert Follow(ns, fuel - 1, ns.links[c[0]], true, visited + {c[0]}) == Err(LoopExists) by {
        ChainLoops(ns, ns.links[c[0]], rest, b, fuel - 1, visited + {c[0]});
      }
    }
  }

  lemma TailComesBack(c: seq<nat>, visited: set<nat>)
    requires |c| > 1 && (c[|c| - 1] in visited || ComesBack(c))
    ensures var rest := c[1..]; rest[|rest| - 1] in visited + {c[0]} || ComesBack(rest)
  {
    var rest := c[1..];
    assert rest[|rest| - 1] == c[|c| - 1];
    assert c[..|c| - 1] == [c[0]] + rest[..|rest| - 1];
  }

  /** Along a chain an error comes back unchanged. */
  lemma {:induction false} ChainError(ns: Namespace, path: string, c: seq<nat>)
    requires LastChain(ns, path, c) && Resolve(ns, ns.links[c[|c| - 1]], false) == Err(LoopExists)
    ensures Resolve(ns, path, true) == Err(LoopExists)
    decreases |c|
  {
    var first := Resolve(ns, path, false).value;
    LinkExact(ns, path, first.passed, c[0]);
    if |c| == 1 {
      PlainExact(ns, ns.links[c[0]]);
    } else {
      TailChain(ns, path, c);
      assert c[1..][|c[1..]| - 1] == c[|c| - 1];
      ChainError(ns, ns.links[c[0]], c[1..]);
    }
  }

  lemma ChainComesBack(ns: Namespace, path: string, c: seq<nat>)
    requires LastChain(ns, path, c) && ComesBack(c)
    ensures Resolve(ns, path, true) == Err(LoopExists)
  {
    var b := ChainBudget(ns, path, c);
    ChainLoops(ns, path, c, b, b + |c| + 1, {});
    ResolveIs(ns, b + |c| + 1, path, true);
  }

  lemma LoopFound(ns: Namespace, path: string)
    requires Resolve(ns, path, true) == Err(LoopExists)
    ensures LoopsLast(ns, path)
  {
    var fuel := BudgetOf(ns, path, true);
    var c := FindChain(ns, fuel, path, {});
  }

  /** LoopExists is the answer if and only if following the path as a last component leads round in a circle. */
  lemma LoopExactly(ns: Namespace, path: string)
    ensures Resolve(ns, path, true) == Err(LoopExists) <==> LoopsLast(ns, path)
  {
    if Resolve(ns, path, true) == Err(LoopExists) {
      LoopFound(ns, path);
    }
    if LoopsLast(ns, path) {
      if Resolve(ns, path, false) == Err(LoopExists) {
        PlainExact(ns, path);
      } else {
        var c :| LastChain(ns, path, c) && (ComesBack(c) || Resolve(ns, ns.links[c[|c| - 1]], false) == Err(LoopExists));
        if ComesBack(c) {
          ChainComesBack(ns, path, c);
        } else {
          ChainError(ns, path, c);
        }
      }
    }
  }
}

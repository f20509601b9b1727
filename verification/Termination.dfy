/**
 When path resolution ends (diffuzzer/src/abstract_fs/fs.rs, resolve_node_rec): exactly then when it ends
 within a budget that depends on the number of symlinks only, and exactly then when no symlink entered in
 dirname position leads round to itself.
 */
module Termination {
  import opened Wrappers
  import opened Pathname
  import opened Nodes
  import opened Resolution
  import opened Invariants

  // ----- numbers below a bound

  predicate AllBelow(a: set<nat>, n: nat) {
    forall i :: i in a ==> i < n
  }

  lemma {:induction false} BelowSize(a: set<nat>, n: nat)
    requires AllBelow(a, n)
    ensures |a| <= n
    decreases n
  {
    if n == 0 {
      assert a == {};
    } else {
      BelowSize(a - {n - 1}, n - 1);
      assert a <= (a - {n - 1}) + {n - 1};
      SubsetSize(a, (a - {n - 1}) + {n - 1});
    }
  }

  function Times(n: nat, step: nat): nat {
    if n == 0 then 0 else Times(n - 1, step) + step
  }

  lemma {:induction false} TimesGrows(m: nat, n: nat, step: nat)
    requires m <= n
    ensures Times(m, step) <= Times(n, step)
    decreases n
  {
    if m < n {
      TimesGrows(m, n - 1, step);
    }
  }

  lemma {:induction false} TimesIsProduct(n: nat, step: nat)
    ensures Times(n, step) == n * step
  {
    if n > 0 {
      TimesIsProduct(n - 1, step);
      assert n * step == (n - 1) * step + step;
    }
  }

  lemma {:induction false} SubsetSize(a: set<nat>, b: set<nat>)
    requires a <= b
    ensures |a| <= |b|
    ensures |a| == |b| ==> a == b
  {
    if a != {} {
      var x :| x in a;
      SubsetSize(a - {x}, b - {x});
      assert a == (a - {x}) + {x} && b == (b - {x}) + {x};
    }
  }

  // ----- a budget that suffices whenever any does

  /** The symlinks whose target resolves, one way or the other, within a budget. */
  ghost function Returning(ns: Namespace, fuel: nat): set<nat> {
    set i | 0 <= i < |ns.links| && Follow(ns, fuel, ns.links[i], true, {}) != Stuck
  }

  lemma ReturningGrows(ns: Namespace, f: nat, g: nat)
    requires f <= g
    ensures Returning(ns, f) <= Returning(ns, g)
  {
    forall i | i in Returning(ns, f)
      ensures i in Returning(ns, g)
    {
      FollowBudget(ns, f, g, ns.links[i], true, {});
    }
  }

  lemma EnterReturns(ns: Namespace, fuel: nat, node: Node)
    ensures Enter(ns, fuel, node) != Stuck <==> (node.Symlink? ==> fuel > 0 && node.link in Returning(ns, fuel - 1))
  {
  }

  /** All symlinks that can be entered within a budget of f return within g. */
  ghost predicate Suffices(ns: Namespace, g: nat, f: nat) {
    f > 0 ==> Returning(ns, f - 1) <= Returning(ns, g)
  }

  lemma SufficesLess(ns: Namespace, g: nat, f: nat)
    requires Suffices(ns, g, f) && f > 0
    ensures Suffices(ns, g, f - 1)
  {
    if f > 1 { ReturningGrows(ns, f - 2, f - 1); }
  }

  /** A walk needs no more budget than the symlinks that it enters. */
  lemma {:induction false} WalkWithin(ns: Namespace, g: nat, f: nat, low: nat, segs: seq<Name>)
    requires g < low && Walk(ns, f, segs) != Stuck && Suffices(ns, g, f)
    ensures Walk(ns, low, segs) == Walk(ns, f, segs)
    decreases |segs|
  {
    if segs != [] {
      var init := segs[..|segs| - 1];
      WalkWithin(ns, g, f, low, init);
      if Walk(ns, f, init).Ok? {
        EnterWithin(ns, g, f, low, Walk(ns, f, init).value.node);
      }
    }
  }

  lemma EnterWithin(ns: Namespace, g: nat, f: nat, low: nat, node: Node)
    requires g < low && Enter(ns, f, node) != Stuck && Suffices(ns, g, f)
    ensures Enter(ns, low, node) == Enter(ns, f, node)
  {
    EnterReturns(ns, f, node);
    if node.Symlink? {
      ReturningGrows(ns, g, low - 1);
      EnterReturns(ns, low, node);
      EnterBudget(ns, if f <= low then f else low, if f <= low then low else f, node);
    }
  }

  lemma OneMoreVisited(visited: set<nat>, i: nat, n: nat)
    requires AllBelow(visited, n) && i < n && i !in visited
    ensures AllBelow(visited + {i}, n) && |visited + {i}| == |visited| + 1 <= n
  {
    BelowSize(visited + {i}, n);
  }

  /** A symlink in which a walk ends, and which is to be followed. */
  predicate GoesOn(w: Outcome<Found>, follow: bool, visited: set<nat>) {
    follow && w.Ok? && w.value.node.Symlink? && w.value.node.link !in visited
  }

  lemma FollowReturns(ns: Namespace, fuel: nat, path: string, follow: bool, visited: set<nat>)
    requires IsValid(path)
    ensures var w := Walk(ns, fuel, Segments(path));
            Follow(ns, fuel, path, follow, visited) != Stuck <==>
              if GoesOn(w, follow, visited) then
                var i := w.value.node.link;
                fuel > 0 && i < |ns.links| && Follow(ns, fuel - 1, ns.links[i], true, visited + {i}) != Stuck
              else w != Stuck
  {
  }

  /** A resolution needs that much, and one more for every symlink followed as a last component. */
  lemma {:induction false} FollowWithin(ns: Namespace, g: nat, f: nat, low: nat, path: string, follow: bool, visited: set<nat>)
    requires AllBelow(visited, |ns.links|) && low + |visited| > g + |ns.links| && low > g
    requires Follow(ns, f, path, follow, visited) != Stuck && Suffices(ns, g, f)
    ensures Follow(ns, low, path, follow, visited) != Stuck
    decreases f
  {
    if IsValid(path) {
      assert WalkAlike(ns, f, low, path) by {
        WalkReturns(ns, f, path, follow, visited);
        WalkWithin(ns, g, f, low, Segments(path));
      }
      forall i: nat | GoesTo(ns, f, path, follow, visited, i)
        ensures low > 0 && i < |ns.links| && Follow(ns, low - 1, ns.links[i], true, visited + {i}) != Stuck
      {
        GoesToReturns(ns, f, path, follow, visited, i);
        SufficesLess(ns, g, f);
        OneMoreVisited(visited, i, |ns.links|);
        FollowWithin(ns, g, f - 1, low - 1, ns.links[i], true, visited + {i});
      }
      FollowAlike(ns, f, low, path, follow, visited);
    }
  }

  /** The symlink that a resolution goes on with. */
  ghost predicate GoesTo(ns: Namespace, f: nat, path: string, follow: bool, visited: set<nat>, i: nat) {
    var w := Walk(ns, f, Segments(path));
    GoesOn(w, follow, visited) && w.value.node.link == i
  }

  lemma GoesToReturns(ns: Namespace, f: nat, path: string, follow: bool, visited: set<nat>, i: nat)
    requires IsValid(path) && GoesTo(ns, f, path, follow, visited, i) && Follow(ns, f, path, follow, visited) != Stuck
    ensures f > 0 && i < |ns.links| && i !in visited && Follow(ns, f - 1, ns.links[i], true, visited + {i}) != Stuck
  {
    FollowReturns(ns, f, path, follow, visited);
  }

  ghost predicate WalkAlike(ns: Namespace, f: nat, low: nat, path: string) {
    Walk(ns, f, Segments(path)) != Stuck && Walk(ns, low, Segments(path)) == Walk(ns, f, Segments(path))
  }

  lemma FollowAlike(ns: Namespace, f: nat, low: nat, path: string, follow: bool, visited: set<nat>)
    requires IsValid(path) && WalkAlike(ns, f, low, path)
    requires forall i: nat :: GoesTo(ns, f, path, follow, visited, i) ==>
               low > 0 && i < |ns.links| && Follow(ns, low - 1, ns.links[i], true, visited + {i}) != Stuck
    ensures Follow(ns, low, path, follow, visited) != Stuck
  {
    var w := Walk(ns, f, Segments(path));
    assert GoesOn(w, follow, visited) ==> GoesTo(ns, f, path, follow, visited, w.value.node.link);
    FollowReturns(ns, low, path, follow, visited);
  }

  /** If nothing more returns from one budget to another that is sufficiently higher, nothing more ever returns. */
  lemma {:induction false} Settled(ns: Namespace, g: nat, f: nat)
    requires Returning(ns, g) == Returning(ns, g + |ns.links| + 1)
    ensures Returning(ns, f) <= Returning(ns, g)
    decreases f
  {
    if f > 0 { Settled(ns, g, f - 1); }
    forall i | i in Returning(ns, f)
      ensures i in Returning(ns, g)
    {
      FollowWithin(ns, g, f, g + |ns.links| + 1, ns.links[i], true, {});
    }
  }

  /** There is such a budget among the first multiples, since the symlinks that return run out. */
  lemma {:induction false} SettlesFrom(ns: Namespace, n: nat) returns (m: nat)
    requires n <= |Returning(ns, Times(n, |ns.links| + 1))|
    ensures m <= |ns.links|
    ensures Returning(ns, Times(m, |ns.links| + 1)) == Returning(ns, Times(m, |ns.links| + 1) + |ns.links| + 1)
    decreases |ns.links| - n
  {
    var f := Times(n, |ns.links| + 1);
    var g := f + |ns.links| + 1;
    ReturningSize(ns, f, g);
    if Returning(ns, f) == Returning(ns, g) {
      m := n;
    } else {
      assert Times(n + 1, |ns.links| + 1) == g;
      m := SettlesFrom(ns, n + 1);
    }
  }

  lemma ReturningSize(ns: Namespace, f: nat, g: nat)
    requires f <= g
    ensures |Returning(ns, f)| <= |ns.links| && |Returning(ns, g)| <= |ns.links|
    ensures Returning(ns, f) == Returning(ns, g) || |Returning(ns, f)| < |Returning(ns, g)|
  {
    BelowSize(Returning(ns, f), |ns.links|);
    BelowSize(Returning(ns, g), |ns.links|);
    ReturningGrows(ns, f, g);
    SubsetSize(Returning(ns, f), Returning(ns, g));
  }

  /** The budget that decides. */
  function Bound(ns: Namespace): nat {
    (|ns.links| + 1) * (|ns.links| + 1)
  }

  lemma BelowBound(ns: Namespace, m: nat)
    requires m <= |ns.links|
    ensures Times(m, |ns.links| + 1) + |ns.links| + 1 <= Bound(ns)
  {
    TimesGrows(m + 1, |ns.links| + 1, |ns.links| + 1);
    TimesIsProduct(|ns.links| + 1, |ns.links| + 1);
  }

  /**
   A resolution ends if and only if it ends within the square of one more than the number of symlinks. The
   bound depends on neither path nor directories, so running with it decides the question.
   */
  lemma EndsWithinBound(ns: Namespace, path: string, follow: bool)
    ensures Resolve(ns, path, follow) == Stuck <==> Follow(ns, Bound(ns), path, follow, {}) == Stuck
    ensures Resolve(ns, path, follow) == Follow(ns, Bound(ns), path, follow, {})
  {
    if Resolve(ns, path, follow) != Stuck {
      var m := SettlesFrom(ns, 0);
      var g := Times(m, |ns.links| + 1);
      var f := BudgetOf(ns, path, follow);
      if f > 0 { Settled(ns, g, f - 1); }
      FollowWithin(ns, g, f, g + |ns.links| + 1, path, follow, {});
      BelowBound(ns, m);
      FollowBudget(ns, g + |ns.links| + 1, Bound(ns), path, follow, {});
      ResolveIs(ns, Bound(ns), path, follow);
    }
  }

  // ----- symlinks entered in dirname position

  /** Resolving a path comes to entering symlink i in dirname position. */
  ghost predicate EntersWithin(ns: Namespace, fuel: nat, path: string, follow: bool, visited: set<nat>, i: nat)
    decreases fuel
  {
    && IsValid(path)
    && (StepsInto(ns, fuel, Segments(path), i)
        || (follow && fuel > 0 && LastLink(ns, fuel, path).Some? && LastLink(ns, fuel, path).value !in visited
            && EntersWithin(ns, fuel - 1, ns.links[LastLink(ns, fuel, path).value], true, visited + {LastLink(ns, fuel, path).value}, i)))
  }

  /** The symlink in which a path ends. */
  ghost function LastLink(ns: Namespace, fuel: nat, path: string): (r: Option<nat>)
    ensures r.Some? ==> r.value < |ns.links|
  {
    var w := Walk(ns, fuel, Segments(path));
    if w.Ok? && w.value.node.Symlink? && w.value.node.link < |ns.links| then Some(w.value.node.link) else None
  }

  /** A walk comes to a symlink before its last segment. */
  ghost predicate StepsInto(ns: Namespace, fuel: nat, segs: seq<Name>, i: nat) {
    exists k :: 0 <= k < |segs| && LeadsTo(Walk(ns, fuel, segs[..k]), i)
  }

  predicate LeadsTo(w: Outcome<Found>, i: nat) {
    w.Ok? && w.value.node == Symlink(i)
  }

  ghost predicate Enters(ns: Namespace, path: string, follow: bool, i: nat) {
    exists fuel: nat :: EntersWithin(ns, fuel, path, follow, {}, i)
  }

  lemma {:induction false} WalkPrefix(ns: Namespace, fuel: nat, segs: seq<Name>, k: nat)
    requires k <= |segs| && Walk(ns, fuel, segs) != Stuck
    ensures Walk(ns, fuel, segs[..k]) != Stuck
    decreases |segs|
  {
    if k < |segs| {
      var init := segs[..|segs| - 1];
      WalkPrefix(ns, fuel, init, k);
      assert init[..k] == segs[..k];
    } else {
      assert segs[..k] == segs;
    }
  }

  /** Two budgets that suffice give one answer. */
  lemma WalkAgrees(ns: Namespace, f: nat, g: nat, segs: seq<Name>)
    requires Walk(ns, f, segs) != Stuck && Walk(ns, g, segs) != Stuck
    ensures Walk(ns, f, segs) == Walk(ns, g, segs)
  {
    if f <= g { WalkBudget(ns, f, g, segs); } else { WalkBudget(ns, g, f, segs); }
  }

  lemma StepReturns(ns: Namespace, g: nat, f: nat, segs: seq<Name>, i: nat)
    requires StepsInto(ns, g, segs, i) && Walk(ns, f, segs) != Stuck
    ensures f > 0 && i in Returning(ns, f - 1)
  {
    var k :| 0 <= k < |segs| && LeadsTo(Walk(ns, g, segs[..k]), i);
    WalkPrefix(ns, f, segs, k);
    WalkPrefix(ns, f, segs, k + 1);
    WalkAgrees(ns, f, g, segs[..k]);
    NextStepEnters(ns, f, segs, k, i);
    EnterReturns(ns, f, Symlink(i));
  }

  lemma NextStepEnters(ns: Namespace, f: nat, segs: seq<Name>, k: nat, i: nat)
    requires k < |segs| && Walk(ns, f, segs[..k + 1]) != Stuck && LeadsTo(Walk(ns, f, segs[..k]), i)
    ensures Enter(ns, f, Symlink(i)) != Stuck
  {
    assert segs[..k + 1][..k] == segs[..k];
  }

  lemma LastFollowed(ns: Namespace, g: nat, f: nat, path: string, visited: set<nat>, j: nat)
    requires IsValid(path) && LastLink(ns, g, path) == Some(j) && j !in visited && Follow(ns, f, path, true, visited) != Stuck
    ensures f > 0 && Follow(ns, f - 1, ns.links[j], true, visited + {j}) != Stuck
  {
    FollowReturns(ns, f, path, true, visited);
    WalkAgrees(ns, f, g, Segments(path));
  }

  lemma WalkReturns(ns: Namespace, f: nat, path: string, follow: bool, visited: set<nat>)
    requires IsValid(path) && Follow(ns, f, path, follow, visited) != Stuck
    ensures Walk(ns, f, Segments(path)) != Stuck
  {
  }

  /** Where a resolution ends, the target of every symlink that it enters resolves with less. */
  lemma {:induction false} EnteredReturns(ns: Namespace, g: nat, f: nat, path: string, follow: bool, visited: set<nat>, i: nat)
    requires EntersWithin(ns, g, path, follow, visited, i) && Follow(ns, f, path, follow, visited) != Stuck
    ensures f > 0 && i in Returning(ns, f - 1)
    decreases g
  {
    if StepsInto(ns, g, Segments(path), i) {
      WalkReturns(ns, f, path, follow, visited);
      StepReturns(ns, g, f, Segments(path), i);
    } else {
      var j := LastLink(ns, g, path).value;
      LastFollowed(ns, g, f, path, visited, j);
      EnteredReturns(ns, g - 1, f - 1, ns.links[j], true, visited + {j}, i);
      ReturningGrows(ns, f - 2, f - 1);
    }
  }

  // ----- no loop, no endless resolution

  /** With enough budget a walk gets stuck at a symlink only. */
  lemma {:induction false} WalkGoesOn(ns: Namespace, files: nat, fuel: nat, segs: seq<Name>)
    requires |ns.dirs| > 0 && InRange(ns, files)
    requires forall i :: StepsInto(ns, fuel, segs, i) ==> fuel > 0 && i in Returning(ns, fuel - 1)
    ensures Walk(ns, fuel, segs) != Stuck
    decreases |segs|
  {
    if segs != [] {
      var init := segs[..|segs| - 1];
      forall i | StepsInto(ns, fuel, init, i)
        ensures fuel > 0 && i in Returning(ns, fuel - 1)
      {
        var k :| 0 <= k < |init| && LeadsTo(Walk(ns, fuel, init[..k]), i);
        assert init[..k] == segs[..k];
        assert StepsInto(ns, fuel, segs, i);
      }
      WalkGoesOn(ns, files, fuel, init);
      if Walk(ns, fuel, init).Ok? {
        var node := Walk(ns, fuel, init).value.node;
        if node.Symlink? {
          assert LeadsTo(Walk(ns, fuel, segs[..|init|]), node.link);
          assert StepsInto(ns, fuel, segs, node.link);
        }
        EnterReturns(ns, fuel, node);
        EnteredInRange(ns, files, fuel, init);
      }
    }
  }

  lemma EnteredInRange(ns: Namespace, files: nat, fuel: nat, segs: seq<Name>)
    requires |ns.dirs| > 0 && InRange(ns, files) && Walk(ns, fuel, segs).Ok?
    ensures var e := Enter(ns, fuel, Walk(ns, fuel, segs).value.node); e.Ok? ==> e.value.1 < |ns.dirs|
  {
    WalkEnds(ns, fuel, segs);
    var node := Walk(ns, fuel, segs).value.node;
    if node.Symlink? && Enter(ns, fuel, node).Ok? {
      FollowEnds(ns, fuel - 1, ns.links[node.link], true, {});
    }
  }

  lemma {:induction false} FollowGoesOn(ns: Namespace, files: nat, fuel: nat, path: string, follow: bool, visited: set<nat>)
    requires |ns.dirs| > 0 && InRange(ns, files)
    requires AllBelow(visited, |ns.links|) && fuel > Bound(ns) + |ns.links| - |visited|
    requires forall i :: EntersWithin(ns, fuel, path, follow, visited, i) ==> i in Returning(ns, Bound(ns))
    ensures Follow(ns, fuel, path, follow, visited) != Stuck
    decreases fuel
  {
    var segs := Segments(path);
    BelowSize(visited, |ns.links|);
    if IsValid(path) {
      ReturningGrows(ns, Bound(ns), fuel - 1);
      forall i | StepsInto(ns, fuel, segs, i)
        ensures i in Returning(ns, fuel - 1)
      {
        assert EntersWithin(ns, fuel, path, follow, visited, i);
      }
      WalkGoesOn(ns, files, fuel, segs);
      var w := Walk(ns, fuel, segs);
      FollowReturns(ns, fuel, path, follow, visited);
      if GoesOn(w, follow, visited) {
        WalkEnds(ns, fuel, segs);
        var i := w.value.node.link;
        assert i < |ns.links|;
        assert LastLink(ns, fuel, path) == Some(i);
        forall j | EntersWithin(ns, fuel - 1, ns.links[i], true, visited + {i}, j)
          ensures j in Returning(ns, Bound(ns))
        {
          assert EntersWithin(ns, fuel, path, follow, visited, j);
        }
        assert |visited + {i}| == |visited| + 1;
        FollowGoesOn(ns, files, fuel - 1, ns.links[i], true, visited + {i});
      }
    }
  }

  /** The target of a symlink resolves, one way or the other. */
  ghost predicate Returns(ns: Namespace, i: nat) {
    i < |ns.links| && Resolve(ns, ns.links[i], true) != Stuck
  }

  lemma ReturnsWithinBound(ns: Namespace, i: nat)
    ensures Returns(ns, i) <==> i in Returning(ns, Bound(ns))
  {
    if i < |ns.links| {
      EndsWithinBound(ns, ns.links[i], true);
    }
  }

  /** An endless resolution enters a symlink whose target never resolves either. */
  lemma StuckEnters(ns: Namespace, files: nat, path: string, follow: bool) returns (i: nat)
    requires |ns.dirs| > 0 && InRange(ns, files) && Resolve(ns, path, follow) == Stuck
    ensures Enters(ns, path, follow, i) && !Returns(ns, i)
    ensures i < |ns.links|
  {
    var fuel := Bound(ns) + |ns.links| + 1;
    if forall j :: EntersWithin(ns, fuel, path, follow, {}, j) ==> j in Returning(ns, Bound(ns)) {
      FollowGoesOn(ns, files, fuel, path, follow, {});
      assert false;
    }
    i :| EntersWithin(ns, fuel, path, follow, {}, i) && i !in Returning(ns, Bound(ns));
    ReturnsWithinBound(ns, i);
    EnteredIsLink(ns, files, fuel, path, follow, {}, i);
  }

  lemma {:induction false} EnteredIsLink(ns: Namespace, files: nat, fuel: nat, path: string, follow: bool, visited: set<nat>, i: nat)
    requires InRange(ns, files) && EntersWithin(ns, fuel, path, follow, visited, i)
    ensures i < |ns.links|
    decreases fuel
  {
    var segs := Segments(path);
    if StepsInto(ns, fuel, segs, i) {
      var k :| 0 <= k < |segs| && LeadsTo(Walk(ns, fuel, segs[..k]), i);
      WalkEnds(ns, fuel, segs[..k]);
    } else {
      var j := LastLink(ns, fuel, path).value;
      EnteredIsLink(ns, files, fuel - 1, ns.links[j], true, visited + {j}, i);
    }
  }

  /** Symlinks each of whose targets enters the next. */
  ghost predicate Trace(ns: Namespace, c: seq<nat>) {
    && c != []
    && (forall k :: 0 <= k < |c| ==> c[k] < |ns.links|)
    && (forall k :: 0 <= k < |c| - 1 ==> Enters(ns, ns.links[c[k]], true, c[k + 1]))
  }

  /** A path enters a symlink from which a trace comes back to where it has been. */
  ghost predicate Lasso(ns: Namespace, path: string, follow: bool, c: seq<nat>) {
    Trace(ns, c) && Enters(ns, path, follow, c[0]) && exists k :: 0 <= k < |c| - 1 && c[k] == c[|c| - 1]
  }

  /** From a symlink whose target never resolves, a trace of any length. */
  lemma {:induction false} LongTrace(ns: Namespace, files: nat, i: nat, n: nat) returns (c: seq<nat>)
    requires |ns.dirs| > 0 && InRange(ns, files) && i < |ns.links| && !Returns(ns, i)
    ensures Trace(ns, c) && |c| == n + 1 && c[0] == i
    decreases n
  {
    if n == 0 {
      c := [i];
    } else {
      var j := StuckEnters(ns, files, ns.links[i], true);
      var rest := LongTrace(ns, files, j, n - 1);
      c := [i] + rest;
      forall k | 0 <= k < |c| - 1
        ensures Enters(ns, ns.links[c[k]], true, c[k + 1])
      {
        if k > 0 { assert c[k] == rest[k - 1] && c[k + 1] == rest[k]; }
      }
    }
  }

  function Members(c: seq<nat>): set<nat> {
    set i | i in c
  }

  lemma {:induction false} DistinctSize(c: seq<nat>)
    requires forall i, j :: 0 <= i < j < |c| ==> c[i] != c[j]
    ensures |Members(c)| == |c|
  {
    if c != [] {
      var init, last := c[..|c| - 1], c[|c| - 1];
      assert forall i :: 0 <= i < |init| ==> init[i] == c[i];
      DistinctSize(init);
      assert c == init + [last];
      assert Members(c) == Members(init) + {last};
    } else {
      assert Members(c) == {};
    }
  }

  /** More numbers than there are values: one comes twice. */
  lemma Pigeonhole(c: seq<nat>, n: nat) returns (i: nat, j: nat)
    requires |c| > n && forall k :: 0 <= k < |c| ==> c[k] < n
    ensures i < j < |c| && c[i] == c[j]
  {
    if forall i, j :: 0 <= i < j < |c| ==> c[i] != c[j] {
      DistinctSize(c);
      BelowSize(Members(c), n);
      assert false;
    }
    i, j :| 0 <= i < j < |c| && c[i] == c[j];
  }

  lemma EntersLowers(ns: Namespace, f: nat, path: string, follow: bool, i: nat)
    requires Enters(ns, path, follow, i) && Follow(ns, f, path, follow, {}) != Stuck
    ensures f > 0 && i in Returning(ns, f - 1)
  {
    var g: nat :| EntersWithin(ns, g, path, follow, {}, i);
    EnteredReturns(ns, g, f, path, follow, {}, i);
  }

  /** Along a trace budgets go down. */
  lemma {:induction false} TraceLowers(ns: Namespace, c: seq<nat>, k: nat, f: nat)
    requires Trace(ns, c) && k < |c| && c[0] in Returning(ns, f)
    ensures k <= f && c[k] in Returning(ns, f - k)
    decreases k
  {
    if k > 0 {
      TraceLowers(ns, c, k - 1, f);
      assert Enters(ns, ns.links[c[k - 1]], true, c[k - 1 + 1]);
      EntersLowers(ns, f - (k - 1), ns.links[c[k - 1]], true, c[k]);
    }
  }

  /** So no symlink on a trace that comes back returns within any budget. */
  lemma {:induction false} CycleStuck(ns: Namespace, c: seq<nat>, f: nat)
    requires Trace(ns, c) && |c| > 1 && c[0] == c[|c| - 1]
    ensures c[0] !in Returning(ns, f)
    decreases f
  {
    if c[0] in Returning(ns, f) {
      TraceLowers(ns, c, |c| - 1, f);
      CycleStuck(ns, c, f - (|c| - 1));
      assert false;
    }
  }

  lemma LassoStuck(ns: Namespace, path: string, follow: bool, c: seq<nat>)
    requires Lasso(ns, path, follow, c)
    ensures Resolve(ns, path, follow) == Stuck
  {
    var k :| 0 <= k < |c| - 1 && c[k] == c[|c| - 1];
    if Resolve(ns, path, follow) != Stuck {
      var f := BudgetOf(ns, path, follow);
      EntersLowers(ns, f, path, follow, c[0]);
      TraceLowers(ns, c, k, f - 1);
      LoopStuck(ns, c, k, f - 1 - k);
      assert false;
    }
  }

  lemma LoopStuck(ns: Namespace, c: seq<nat>, k: nat, f: nat)
    requires Trace(ns, c) && k < |c| - 1 && c[k] == c[|c| - 1]
    ensures c[k] !in Returning(ns, f)
  {
    TraceTail(ns, c, k);
    var loop := c[k..];
    assert loop[0] == c[k] && loop[|loop| - 1] == c[|c| - 1];
    CycleStuck(ns, loop, f);
  }

  lemma TraceTail(ns: Namespace, c: seq<nat>, k: nat)
    requires Trace(ns, c) && k < |c|
    ensures Trace(ns, c[k..])
  {
    forall j | 0 <= j < |c[k..]| - 1
      ensures Enters(ns, ns.links[c[k..][j]], true, c[k..][j + 1])
    {
      assert c[k..][j] == c[k + j] && c[k..][j + 1] == c[k + j + 1];
    }
  }

  lemma TraceHead(ns: Namespace, c: seq<nat>, k: nat)
    requires Trace(ns, c) && 0 < k <= |c|
    ensures Trace(ns, c[..k])
  {
    forall j | 0 <= j < k - 1
      ensures Enters(ns, ns.links[c[..k][j]], true, c[..k][j + 1])
    {
      assert c[..k][j] == c[j] && c[..k][j + 1] == c[j + 1];
    }
  }

  /**
   A resolution never ends if and only if the path enters, in dirname position, a symlink from which entering
   symlinks leads round in a circle.
   */
  lemma EndlessIsCircular(ns: Namespace, files: nat, path: string, follow: bool)
    requires |ns.dirs| > 0 && InRange(ns, files)
    ensures Resolve(ns, path, follow) == Stuck <==> exists c :: Lasso(ns, path, follow, c)
  {
    if Resolve(ns, path, follow) == Stuck {
      var i := StuckEnters(ns, files, path, follow);
      var c := LongTrace(ns, files, i, |ns.links|);
      var k, j := Pigeonhole(c, |ns.links|);
      TraceHead(ns, c, j + 1);
      var loop := c[..j + 1];
      assert loop[k] == loop[|loop| - 1] && loop[0] == c[0];
      assert Lasso(ns, path, follow, loop);
    } else if c :| Lasso(ns, path, follow, c) {
      LassoStuck(ns, path, follow, c);
    }
  }
}

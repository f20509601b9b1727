/**
 When the search for alive nodes ends (diffuzzer/src/abstract_fs/fs.rs, alive and alive_follow_once): it has
 no visited set, so it ends exactly where the paths that it follows are bounded, and that is exactly where no
 directory is below itself under the directories that a round starts from.
 */
module Descent {
  import opened Wrappers
  import opened Pathname
  import opened Nodes
  import opened Forest
  import opened Invariants
  import opened Termination
  import opened Trails

  // ----- going down through directories

  /** Where names lead from a directory, through directories only. */
  ghost function Descend(ns: Namespace, d: nat, segs: seq<Name>): Option<nat> {
    if segs == [] then Some(d)
    else
      var c := Descend(ns, d, segs[..|segs| - 1]);
      var n := segs[|segs| - 1];
      if c.None? || c.value >= |ns.dirs| || n !in ns.dirs[c.value] || !ns.dirs[c.value][n].Dir? then None
      else Some(ns.dirs[c.value][n].dir)
  }

  lemma {:induction false} DescendReaches(ns: Namespace, d: nat, segs: seq<Name>)
    requires Descend(ns, d, segs).Some?
    ensures ReachIn(ns, d, Descend(ns, d, segs).value, |segs|)
    decreases |segs|
  {
    if segs != [] {
      var init, n := segs[..|segs| - 1], segs[|segs| - 1];
      DescendReaches(ns, d, init);
      var c := Descend(ns, d, init).value;
      assert HasEntry(ns, c, n, Dir(ns.dirs[c][n].dir));
      assert Edge(ns, c, ns.dirs[c][n].dir);
    }
  }

  lemma {:induction false} ReachDescends(ns: Namespace, a: nat, c: nat, k: nat) returns (segs: seq<Name>)
    requires ReachIn(ns, a, c, k)
    ensures Descend(ns, a, segs) == Some(c) && |segs| == k
    decreases k
  {
    if k == 0 {
      segs := [];
    } else {
      var d: nat :| Edge(ns, d, c) && ReachIn(ns, a, d, k - 1);
      var n :| HasEntry(ns, d, n, Dir(c));
      var init := ReachDescends(ns, a, d, k - 1);
      segs := init + [n];
      assert segs[..|segs| - 1] == init;
    }
  }

  lemma {:induction false} DescendConcat(ns: Namespace, d: nat, a: seq<Name>, b: seq<Name>)
    requires Descend(ns, d, a).Some?
    ensures Descend(ns, d, a + b) == Descend(ns, Descend(ns, d, a).value, b)
    decreases |b|
  {
    if b == [] {
      assert a + b == a;
    } else {
      assert (a + b)[..|a + b| - 1] == a + b[..|b| - 1];
      DescendConcat(ns, d, a, b[..|b| - 1]);
    }
  }

  lemma {:induction false} DescendPrefix(ns: Namespace, d: nat, segs: seq<Name>, i: nat)
    requires i <= |segs| && Descend(ns, d, segs).Some?
    ensures Descend(ns, d, segs[..i]).Some?
    decreases |segs|
  {
    if i < |segs| {
      DescendPrefix(ns, d, segs[..|segs| - 1], i);
      assert segs[..|segs| - 1][..i] == segs[..i];
    } else {
      assert segs[..i] == segs;
    }
  }

  lemma {:induction false} DescendInRange(ns: Namespace, files: nat, d: nat, segs: seq<Name>)
    requires InRange(ns, files) && d < |ns.dirs| && Descend(ns, d, segs).Some?
    ensures Descend(ns, d, segs).value < |ns.dirs|
  {
    if segs != [] {
      var c, n := Descend(ns, d, segs[..|segs| - 1]).value, segs[|segs| - 1];
      assert HasEntry(ns, c, n, Dir(ns.dirs[c][n].dir));
    }
  }

  /** At or below a directory there is one that is below itself. */
  ghost predicate Circular(ns: Namespace, d: nat) {
    exists c: nat, k: nat :: k > 0 && Reach(ns, d, c) && ReachIn(ns, c, c, k)
  }

  /** Round a circle one gets as far as one likes. */
  lemma {:induction false} Pump(ns: Namespace, c: nat, loop: seq<Name>, n: nat) returns (segs: seq<Name>)
    requires loop != [] && Descend(ns, c, loop) == Some(c)
    ensures Descend(ns, c, segs) == Some(c) && |segs| >= n
    decreases n
  {
    if n == 0 {
      segs := [];
    } else {
      var rest := Pump(ns, c, loop, n - 1);
      DescendConcat(ns, c, loop, rest);
      segs := loop + rest;
    }
  }

  lemma CircularLong(ns: Namespace, d: nat, n: nat) returns (segs: seq<Name>)
    requires Circular(ns, d)
    ensures Descend(ns, d, segs).Some? && |segs| >= n
  {
    var c: nat, k: nat :| k > 0 && Reach(ns, d, c) && ReachIn(ns, c, c, k);
    var m: nat :| ReachIn(ns, d, c, m);
    var there := ReachDescends(ns, d, c, m);
    var loop := ReachDescends(ns, c, c, k);
    var round := Pump(ns, c, loop, n);
    DescendConcat(ns, d, there, round);
    segs := there + round;
  }

  /** The directories on the way. */
  ghost function Chain(ns: Namespace, d: nat, segs: seq<Name>): seq<nat>
    requires forall i :: 0 <= i <= |segs| ==> Descend(ns, d, segs[..i]).Some?
  {
    seq(|segs| + 1, i requires 0 <= i <= |segs| => Descend(ns, d, segs[..i]).value)
  }

  /** A way down that is longer than there are directories comes to one of them twice. */
  lemma LongCircular(ns: Namespace, files: nat, d: nat, segs: seq<Name>)
    requires InRange(ns, files) && d < |ns.dirs| && Descend(ns, d, segs).Some? && |segs| >= |ns.dirs|
    ensures Circular(ns, d)
  {
    forall i | 0 <= i <= |segs|
      ensures Descend(ns, d, segs[..i]).Some? && Descend(ns, d, segs[..i]).value < |ns.dirs|
    {
      DescendPrefix(ns, d, segs, i);
      DescendInRange(ns, files, d, segs[..i]);
    }
    var i, j := Pigeonhole(Chain(ns, d, segs), |ns.dirs|);
    var c := Descend(ns, d, segs[..i]).value;
    assert segs[..j] == segs[..i] + segs[i..j];
    DescendConcat(ns, d, segs[..i], segs[i..j]);
    DescendReaches(ns, d, segs[..i]);
    DescendReaches(ns, c, segs[i..j]);
    assert Reach(ns, d, c) && ReachIn(ns, c, c, j - i);
  }

  ghost predicate DescentWithin(ns: Namespace, d: nat, b: nat) {
    forall segs :: Descend(ns, d, segs).Some? ==> |segs| <= b
  }

  /** The ways down from a directory are bounded if and only if none goes round in a circle; then all are short. */
  lemma DescentEnds(ns: Namespace, files: nat, d: nat)
    requires InRange(ns, files) && d < |ns.dirs|
    ensures (exists b: nat :: DescentWithin(ns, d, b)) <==> !Circular(ns, d)
    ensures !Circular(ns, d) ==> DescentWithin(ns, d, |ns.dirs| - 1)
  {
    if Circular(ns, d) {
      forall b: nat
        ensures !DescentWithin(ns, d, b)
      {
        var segs := CircularLong(ns, d, b + 1);
      }
    } else {
      forall segs | Descend(ns, d, segs).Some?
        ensures |segs| < |ns.dirs|
      {
        if |segs| >= |ns.dirs| {
          LongCircular(ns, files, d, segs);
          assert false;
        }
      }
      assert DescentWithin(ns, d, |ns.dirs| - 1);
    }
  }

  /** Where depths can be given, and so in a forest, there are no circles. */
  lemma AcyclicNotCircular(ns: Namespace, files: nat, d: nat)
    requires InRange(ns, files) && d < |ns.dirs| && Acyclic(ns)
    ensures !Circular(ns, d)
  {
    var h :| Depths(ns, h);
    forall c: nat, k: nat | k > 0 && Reach(ns, d, c)
      ensures !ReachIn(ns, c, c, k)
    {
      var m: nat :| ReachIn(ns, d, c, m);
      ReachDeeper(ns, h, d, c, m);
      if ReachIn(ns, c, c, k) {
        ReachDeeper(ns, h, c, c, k);
        assert false;
      }
    }
  }

  // ----- the levels of the search

  /** The paths that a round at level k follows are no longer than some bound. */
  ghost predicate Bounded(ns: Namespace, k: nat) {
    exists b: nat :: BoundedBy(ns, k, b)
  }

  ghost predicate BoundedBy(ns: Namespace, k: nat, b: nat) {
    forall segs :: OnLevel(ns, segs, k) ==> |segs| <= b
  }

  ghost predicate OnLevel(ns: Namespace, segs: seq<Name>, k: nat) {
    Trail(ns, segs).Some? && Trail(ns, segs).value.level == k
  }

  /** Where a round at level k starts: at the root, or behind a symlink that leads from the level before. */
  ghost predicate StartRoute(ns: Namespace, segs: seq<Name>, k: nat) {
    OnLevel(ns, segs, k) && (segs == [] || !OnLevel(ns, segs[..|segs| - 1], k))
  }

  lemma StartFromBefore(ns: Namespace, segs: seq<Name>, k: nat)
    requires StartRoute(ns, segs, k)
    ensures if segs == [] then k == 0 else k > 0 && OnLevel(ns, segs[..|segs| - 1], k - 1)
  {
  }

  lemma {:induction false} TrailInRange(ns: Namespace, files: nat, segs: seq<Name>)
    requires |ns.dirs| > 0 && InRange(ns, files) && Trail(ns, segs).Some?
    ensures Trail(ns, segs).value.dir < |ns.dirs|
  {
    if segs != [] {
      var t, n := Trail(ns, segs[..|segs| - 1]).value, segs[|segs| - 1];
      var node := ns.dirs[t.dir][n];
      assert HasEntry(ns, t.dir, n, node);
      if node.Symlink? {
        ResolveInRange(ns, files, ns.links[node.link]);
      }
    }
  }

  /** Going on down through directories stays on the level. */
  lemma {:induction false} TrailDescend(ns: Namespace, a: seq<Name>, b: seq<Name>)
    requires Trail(ns, a).Some? && Descend(ns, Trail(ns, a).value.dir, b).Some?
    ensures Trail(ns, a + b) == Some(Spot(Descend(ns, Trail(ns, a).value.dir, b).value, Trail(ns, a).value.level))
    decreases |b|
  {
    if b == [] {
      assert a + b == a;
    } else {
      assert (a + b)[..|a + b| - 1] == a + b[..|b| - 1];
      TrailDescend(ns, a, b[..|b| - 1]);
    }
  }

  /** Every trail is a start of its level and then a way down. */
  lemma {:induction false} TrailSplit(ns: Namespace, segs: seq<Name>, k: nat) returns (i: nat)
    requires OnLevel(ns, segs, k)
    ensures i <= |segs| && StartRoute(ns, segs[..i], k)
    ensures Descend(ns, Trail(ns, segs[..i]).value.dir, segs[i..]) == Some(Trail(ns, segs).value.dir)
    decreases |segs|
  {
    if StartRoute(ns, segs, k) {
      i := |segs|;
      assert segs[..i] == segs && segs[i..] == [];
    } else {
      var init := segs[..|segs| - 1];
      i := TrailSplit(ns, init, k);
      assert init[..i] == segs[..i] && segs[i..][..|segs[i..]| - 1] == init[i..];
    }
  }

  /** Where the levels before are bounded, a level is bounded if and only if no circle is below any of its starts. */
  lemma LevelEnds(ns: Namespace, files: nat, k: nat)
    requires |ns.dirs| > 0 && InRange(ns, files) && (k > 0 ==> Bounded(ns, k - 1))
    ensures Bounded(ns, k) <==> forall segs :: StartRoute(ns, segs, k) ==> !Circular(ns, Trail(ns, segs).value.dir)
  {
    if b: nat :| BoundedBy(ns, k, b) {
      forall segs | StartRoute(ns, segs, k)
        ensures !Circular(ns, Trail(ns, segs).value.dir)
      {
        if Circular(ns, Trail(ns, segs).value.dir) {
          var more := CircularLong(ns, Trail(ns, segs).value.dir, b + 1);
          TrailDescend(ns, segs, more);
          assert OnLevel(ns, segs + more, k);
          assert false;
        }
      }
    }
    if forall segs :: StartRoute(ns, segs, k) ==> !Circular(ns, Trail(ns, segs).value.dir) {
      var before: nat := 0;
      if k > 0 { before :| BoundedBy(ns, k - 1, before); }
      forall segs | OnLevel(ns, segs, k)
        ensures |segs| <= before + 1 + |ns.dirs|
      {
        var i := TrailSplit(ns, segs, k);
        StartFromBefore(ns, segs[..i], k);
        TrailInRange(ns, files, segs[..i]);
        DescentEnds(ns, files, Trail(ns, segs[..i]).value.dir);
      }
      assert BoundedBy(ns, k, before + 1 + |ns.dirs|);
    }
  }

  /**
   The two rounds of the search follow paths of bounded length, and so end, if and only if no directory at or
   below the root is below itself, and none at or below what the symlinks of the first round lead to.
   */
  lemma SearchEnds(ns: Namespace, files: nat)
    requires |ns.dirs| > 0 && InRange(ns, files)
    ensures Bounded(ns, 0) <==> !Circular(ns, ROOT)
    ensures Bounded(ns, 0) && Bounded(ns, 1) <==>
              !Circular(ns, ROOT) && forall segs :: StartRoute(ns, segs, 1) ==> !Circular(ns, Trail(ns, segs).value.dir)
  {
    LevelEnds(ns, files, 0);
    assert Trail(ns, []) == Some(Spot(ROOT, 0)) && StartRoute(ns, [], 0);
    forall segs | StartRoute(ns, segs, 0)
      ensures segs == []
    {
      StartFromBefore(ns, segs, 0);
    }
    if Bounded(ns, 0) {
      LevelEnds(ns, files, 1);
    }
  }

  lemma AcyclicBounded(ns: Namespace, files: nat)
    requires |ns.dirs| > 0 && InRange(ns, files) && Acyclic(ns)
    ensures Bounded(ns, 0) && Bounded(ns, 1)
  {
    forall segs | Trail(ns, segs).Some?
      ensures !Circular(ns, Trail(ns, segs).value.dir)
    {
      TrailInRange(ns, files, segs);
      AcyclicNotCircular(ns, files, Trail(ns, segs).value.dir);
    }
    LevelEnds(ns, files, 0);
    LevelEnds(ns, files, 1);
  }
}

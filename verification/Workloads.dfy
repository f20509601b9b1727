/**
 Workloads that are cut, extended and replayed (diffuzzer/src/abstract_fs/mutator.rs): what a replay
 records, and why the fresh-name discipline survives.
 */
module Workloads {
  import opened Wrappers
  import opened Pathname
  import opened Operations
  import opened Invariants
  import opened Discipline
  import opened Choices

  function WithNumber(op: Operation, k: nat): Operation {
    if op.Open? then Open(op.path, k) else op
  }

  function NextNumber(k: nat, op: Operation): nat {
    if op.Open? then k + 1 else k
  }

  /** The operations with their Opens numbered in order from k on. */
  function RenumberFrom(k: nat, ops: seq<Operation>): (r: seq<Operation>)
    ensures |r| == |ops|
    decreases |ops|
  {
    if ops == [] then [] else [WithNumber(ops[0], k)] + RenumberFrom(NextNumber(k, ops[0]), ops[1..])
  }

  lemma {:induction false} RenumberSame(k: nat, ops: seq<Operation>)
    ensures SameNames(RenumberFrom(k, ops), ops)
    decreases |ops|
  {
    if ops != [] {
      RenumberSame(NextNumber(k, ops[0]), ops[1..]);
      assert ops == [ops[0]] + ops[1..];
    }
  }

  function Renumber(ops: seq<Operation>): seq<Operation> {
    RenumberFrom(0, ops)
  }

  lemma {:induction false} OpensConcat(a: seq<Operation>, b: seq<Operation>)
    ensures Opens(a + b) == Opens(a) + Opens(b)
    decreases |b|
  {
    if b == [] {
      assert a + b == a;
    } else {
      var init := b[..|b| - 1];
      assert (a + b)[..|a + b| - 1] == a + init;
      OpensConcat(a, init);
    }
  }

  lemma OpensCons(op: Operation, rest: seq<Operation>)
    ensures Opens([op] + rest) == Opens(rest) + if op.Open? then 1 else 0
  {
    OpensConcat([op], rest);
    assert [op][..0] == [];
  }

  lemma {:induction false} RenumberConcat(k: nat, a: seq<Operation>, b: seq<Operation>)
    ensures RenumberFrom(k, a + b) == RenumberFrom(k, a) + RenumberFrom(k + Opens(a), b)
    decreases |a|
  {
    if a == [] {
      assert a + b == b;
    } else {
      var k' := NextNumber(k, a[0]);
      assert (a + b)[1..] == a[1..] + b;
      assert k + Opens(a) == k' + Opens(a[1..]) by {
        assert a == [a[0]] + a[1..];
        OpensCons(a[0], a[1..]);
      }
      RenumberConcat(k', a[1..], b);
      Assoc([WithNumber(a[0], k)], RenumberFrom(k', a[1..]), RenumberFrom(k + Opens(a), b));
    }
  }

  lemma Assoc(a: seq<Operation>, b: seq<Operation>, c: seq<Operation>)
    ensures (a + b) + c == a + (b + c)
  {
  }

  /** A successful replay records what it was given, with the Opens renumbered. */
  lemma {:induction false} ReplayRecords(s: State, ops: seq<Operation>)
    requires Replay(s, ops).status.Done?
    ensures Replay(s, ops).state.recording == s.recording + RenumberFrom(|s.descriptors|, ops)
    decreases |ops|
  {
    if ops != [] {
      var op := ops[0];
      var t := Exec(s, op).state;
      OneRecord(s, op);
      ReplayRecords(t, ops[1..]);
      Assoc(s.recording, [WithNumber(op, |s.descriptors|)], RenumberFrom(|t.descriptors|, ops[1..]));
    }
  }

  lemma OneRecord(s: State, op: Operation)
    requires Exec(s, op).status.Done?
    ensures Exec(s, op).state.recording == s.recording + [WithNumber(op, |s.descriptors|)]
    ensures |Exec(s, op).state.descriptors| == NextNumber(|s.descriptors|, op)
  {
    ExecRecords(s, op);
    OneDescriptor(s, op);
  }

  lemma OneDescriptor(s: State, op: Operation)
    requires Exec(s, op).status.Done?
    ensures |Exec(s, op).state.descriptors| == |s.descriptors| + if op.Open? then 1 else 0
  {
  }

  /** What can be rebuilt from its recording can still be after more operations. */
  lemma {:induction false} ReplayReproduced(s: State, ops: seq<Operation>)
    requires Reproduced(s) && Replay(s, ops).status.Done?
    ensures Reproduced(Replay(s, ops).state)
    decreases |ops|
  {
    if ops != [] {
      var op := ops[0];
      ExecRecords(s, op);
      LoggedSame(s, op);
      ReplaySnoc(FRESH, s.recording, Logged(s, op));
      ReplayReproduced(Exec(s, op).state, ops[1..]);
    }
  }

  /** Replaying from scratch, seen as a whole: a renumbered workload that replays to itself. */
  lemma ReplayFromScratch(ops: seq<Operation>)
    requires Replay(FRESH, ops).status.Done?
    ensures var t := Replay(FRESH, ops).state;
            && t.recording == Renumber(ops)
            && Replay(FRESH, Renumber(ops)) == Effect(t, Done)
            && LifeCycle(Renumber(ops))
  {
    ReplayRecords(FRESH, ops);
    assert [] + Renumber(ops) == Renumber(ops);
    assert Reproduced(FRESH);
    ReplayReproduced(FRESH, ops);
    FreshInv();
    ReplayInv(FRESH, ops);
  }

  // ----- deleting operations

  function Without(ops: seq<Operation>, i: nat): seq<Operation>
    requires i < |ops|
  {
    ops[..i] + ops[i + 1..]
  }

  lemma {:induction false} RankZero(ops: seq<Operation>, n: Name)
    ensures Rank(ops, n) == 0 <==> forall op :: op in ops ==> Introduced(op) != Some(n)
    decreases |ops|
  {
    if ops != [] {
      var init, op := ops[..|ops| - 1], ops[|ops| - 1];
      assert ops == init + [op];
      RankZero(init, n);
    }
  }

  /** With fewer operations before it, a fresh step is still fresh. */
  lemma FreshWithFewer(a: seq<Operation>, b: seq<Operation>, op: Operation)
    requires FreshStep(b, op) && forall x :: x in a ==> x in b
    ensures FreshStep(a, op)
  {
    var n := Introduced(op);
    if n.Some? {
      RankZero(a, n.value);
      RankZero(b, n.value);
      forall m | m in a + [op] && m.MakeSymlink?
        ensures n.value !in Segments(m.target)
      {
        assert m in b + [op];
      }
    }
  }

  /** Deleting an operation keeps the discipline. */
  lemma WithoutDisciplined(ops: seq<Operation>, i: nat)
    requires Disciplined(ops) && i < |ops|
    ensures Disciplined(Without(ops, i))
  {
    var w := Without(ops, i);
    forall j | 0 <= j < |w|
      ensures FreshStep(w[..j], w[j])
    {
      if j < i {
        assert w[..j] == ops[..j];
        assert FreshStep(ops[..j], ops[j]);
      } else {
        assert FreshStep(ops[..j + 1], ops[j + 1]);
        forall x | x in w[..j]
          ensures x in ops[..j + 1]
        {
          var l :| 0 <= l < j && w[l] == x;
          assert w[l] == ops[if l < i then l else l + 1];
        }
        FreshWithFewer(w[..j], ops[..j + 1], ops[j + 1]);
      }
    }
  }

  lemma SameDisciplined(a: seq<Operation>, b: seq<Operation>)
    requires SameNames(a, b)
    ensures Disciplined(a) <==> Disciplined(b)
  {
    forall j | 0 <= j < |a|
      ensures FreshStep(a[..j], a[j]) <==> FreshStep(b[..j], b[j])
    {
      SameFresh(a[..j], b[..j], a[j]);
      SameStep(b[..j], a[j], b[j]);
    }
  }

  lemma SameStep(ops: seq<Operation>, x: Operation, y: Operation)
    requires x == y || (x.Open? && y.Open?)
    ensures FreshStep(ops, x) <==> FreshStep(ops, y)
  {
  }

  /** An operation that succeeds splits only paths with a slash. */
  lemma DoneSlashed(s: State, op: Operation)
    requires Exec(s, op).status.Done?
    ensures Slashed(op)
  {
  }

  lemma {:induction false} ReplaySlashed(s: State, ops: seq<Operation>)
    requires Replay(s, ops).status.Done?
    ensures forall op :: op in ops ==> Slashed(op)
    decreases |ops|
  {
    if ops != [] {
      DoneSlashed(s, ops[0]);
      ReplaySlashed(Exec(s, ops[0]).state, ops[1..]);
    }
  }

  /** The workloads the fuzzer works with: disciplined, and replaying to themselves. */
  ghost predicate Good(w: seq<Operation>) {
    Disciplined(w) && Replay(FRESH, w).status.Done? && Replay(FRESH, w).state.recording == w
  }

  /** Any shortened good workload replays with a result, and is good once renumbered if that is success. */
  lemma WithoutGood(w: seq<Operation>, i: nat)
    requires Good(w) && i < |w|
    ensures !Replay(FRESH, Without(w, i)).status.NoReturn?
    ensures Replay(FRESH, Without(w, i)).status.Done? ==> Good(Renumber(Without(w, i)))
  {
    var v := Without(w, i);
    WithoutDisciplined(w, i);
    ReplaySlashed(FRESH, w);
    FreshFit();
    FollowsDisciplined([], v);
    assert [] + v == v;
    ReplayReturns(FRESH, v);
    if Replay(FRESH, v).status.Done? {
      ReplayFromScratch(v);
      RenumberSame(0, v);
      SameDisciplined(Renumber(v), v);
    }
  }

  // ----- inserting an operation

  /** The names that `insert` collects; it passes over removals. */
  function NamesIn(op: Operation): set<Name> {
    match op
    case MkDir(path, _) => Set(Segments(path))
    case Create(path, _) => Set(Segments(path))
    case Hardlink(oldPath, newPath) => Set(Segments(oldPath)) + Set(Segments(newPath))
    case Rename(oldPath, newPath) => Set(Segments(oldPath)) + Set(Segments(newPath))
    case Open(path, _) => Set(Segments(path))
    case MakeSymlink(target, linkPath) => Set(Segments(target)) + Set(Segments(linkPath))
    case _ => {}
  }

  function Set(names: seq<Name>): set<Name> {
    set n | n in names
  }

  /** All paths in an operation. */
  function PathsIn(op: Operation): set<string> {
    match op
    case MkDir(path, _) => {path}
    case Create(path, _) => {path}
    case Remove(path) => {path}
    case Hardlink(oldPath, newPath) => {oldPath, newPath}
    case Rename(oldPath, newPath) => {oldPath, newPath}
    case Open(path, _) => {path}
    case MakeSymlink(target, linkPath) => {target, linkPath}
    case _ => {}
  }

  lemma NamesInExactly(op: Operation, n: Name)
    ensures n in NamesIn(op) <==> !op.Remove? && exists path :: path in PathsIn(op) && n in Segments(path)
  {
  }

  /** All names introduced or mentioned are among the names collected. */
  predicate Covered(ops: seq<Operation>, used: set<Name>) {
    forall op :: op in ops ==> NamesIn(op) <= used
  }

  lemma IntroducedCovered(op: Operation, used: set<Name>)
    requires NamesIn(op) <= used && Introduced(op).Some? && Introduced(op).value != ""
    ensures Introduced(op).value in used
  {
    SplitSegments(NewPath(op).value);
  }

  /** Names outside the collection are fresh for every part of the workload. */
  lemma OutsideFresh(ops: seq<Operation>, used: set<Name>, n: Name)
    requires Covered(ops, used) && n !in used && Proper(n)
    ensures FreshName(ops, n)
  {
    RankZero(ops, n);
    forall op | op in ops
      ensures Introduced(op) != Some(n)
    {
      if Introduced(op) == Some(n) {
        IntroducedCovered(op, used);
        assert false;
      }
    }
  }

  /** The rest of a workload still keeps the discipline after an operation that fits in. */
  lemma FollowsInserted(before: seq<Operation>, op: Operation, after: seq<Operation>, used: set<Name>)
    requires Disciplined(before + after) && Covered(after, used) && FitsIn(before, op, used)
    ensures Follows(before + [op], after)
  {
    FollowsDisciplined(before, after);
    forall j | 0 <= j < |after|
      ensures FreshStep(before + [op] + after[..j], after[j])
    {
      var next := after[j];
      assert FreshStep(before + after[..j], next);
      if Introduced(next).Some? {
        FreshWithInserted(before, op, after[..j], next, used);
      }
    }
  }

  lemma FreshWithInserted(before: seq<Operation>, op: Operation, between: seq<Operation>, next: Operation, used: set<Name>)
    requires FreshStep(before + between, next) && Introduced(next).Some? && NamesIn(next) <= used && FitsIn(before, op, used)
    ensures FreshStep(before + [op] + between, next)
  {
    var n := Introduced(next).value;
    IntroducedCovered(next, used);
    RankZero(before + between, n);
    RankZero(before + [op] + between, n);
    RankZero(before, n);
    assert forall x :: x in before ==> x in before + between;
    assert Rank(before, n) == 0;
    forall m | m in before + [op] + between + [next] && m.MakeSymlink?
      ensures n !in Segments(m.target)
    {
      assert m == op || m in before + between + [next];
    }
  }
}

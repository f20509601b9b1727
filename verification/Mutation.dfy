/**
 Mutation of workloads (diffuzzer/src/abstract_fs/mutator.rs and diffuzzer/src/fuzzing/greybox/mutator.rs).
 */
module Mutation {
  import opened Wrappers
  import opened Pathname
  import opened Nodes
  import opened Operations
  import opened Invariants
  import opened Discipline
  import opened FileSystem
  import opened Names
  import opened Choices
  import opened Generator
  import opened Workloads

  /** A removal fails when the rest does not replay. */
  ghost predicate RemoveRefused(workload: seq<Operation>, index: nat)
    requires index < |workload|
  {
    Replay(FRESH, Without(workload, index)).status.Failed?
  }

  /** Tries to remove the operation at the index; the rest must still replay from scratch. */
  method RemoveOperation(workload: seq<Operation>, index: nat) returns (r: Option<seq<Operation>>)
    requires index < |workload| && !Replay(FRESH, Without(workload, index)).status.NoReturn?
    ensures if r.Some? then Replay(FRESH, Without(workload, index)).status.Done? else RemoveRefused(workload, index)
    ensures r.Some? ==> r.value == Renumber(Without(workload, index)) && LifeCycle(r.value)
    ensures r.Some? ==> Replay(FRESH, r.value).status.Done? && Replay(FRESH, r.value).state.recording == r.value
  {
    var ops := workload[..index] + workload[index + 1..];
    assert ops == Without(workload, index);
    var fs := new AbstractFS();
    var replayed := fs.Replay(ops);
    if replayed.Failure? {
      return None;
    }
    ReplayFromScratch(ops);
    return Some(fs.recording);
  }

  /** All names on the paths of a workload, removals aside. */
  function AllNames(ops: seq<Operation>): set<Name> {
    if ops == [] then {} else AllNames(ops[..|ops| - 1]) + NamesIn(ops[|ops| - 1])
  }

  lemma {:induction false} AllNamesExactly(ops: seq<Operation>)
    ensures Covered(ops, AllNames(ops))
    ensures forall n :: n in AllNames(ops) <==> exists op :: op in ops && n in NamesIn(op)
    decreases |ops|
  {
    if ops != [] {
      var init, op := ops[..|ops| - 1], ops[|ops| - 1];
      assert ops == init + [op];
      AllNamesExactly(init);
      assert op in ops;
    }
  }

  /** The names kept off are those on all paths, removals aside. */
  lemma NamesKeptOff(ops: seq<Operation>, n: Name)
    ensures n in AllNames(ops) <==> exists op, path :: op in ops && !op.Remove? && path in PathsIn(op) && n in Segments(path)
  {
    AllNamesExactly(ops);
    forall op | op in ops
      ensures n in NamesIn(op) <==> !op.Remove? && exists path :: path in PathsIn(op) && n in Segments(path)
    {
      NamesInExactly(op, n);
    }
  }

  method CollectNames(workload: seq<Operation>) returns (used: set<Name>)
    ensures used == AllNames(workload) && Covered(workload, used)
  {
    used := {};
    var i := 0;
    while i < |workload|
      invariant 0 <= i <= |workload|
      invariant used == AllNames(workload[..i])
    {
      assert workload[..i + 1][..i] == workload[..i];
      used := used + NamesIn(workload[i]);
      i := i + 1;
    }
    assert workload[..i] == workload;
    AllNamesExactly(workload);
  }

  /** The two parts with one operation put in between, up to the numbers of Opens. */
  predicate Inserted(result: seq<Operation>, before: seq<Operation>, op: Operation, after: seq<Operation>) {
    result == Renumber(before + [op] + after)
  }

  /** A new filesystem with the first part of a disciplined workload replayed. */
  method ReplayFirst(ops: seq<Operation>) returns (fs: AbstractFS, r: Result<(), FsError>)
    requires Disciplined(ops) && forall op :: op in ops ==> Slashed(op)
    ensures fresh(fs) && fs.Valid()
    ensures if r.Success? then Replay(FRESH, ops).status.Done? else Replay(FRESH, ops).status.Failed?
    ensures r.Success? ==> Replay(FRESH, ops) == Effect(fs.View(), Done) && Fit(fs.View()) && SameNames(fs.recording, ops)
  {
    fs := new AbstractFS();
    FreshFit();
    assert Follows([], ops) by {
      FollowsDisciplined([], ops);
      assert [] + ops == ops;
    }
    ReplayReturns(FRESH, ops);
    r := fs.Replay(ops);
    if r.Success? {
      ReplayFromScratch(ops);
      RenumberSame(0, ops);
    }
  }

  /** The operation that an insertion comes to try, if the part before its place replays; it then succeeds there. */
  ghost predicate InsertTried(workload: seq<Operation>, index: nat, op: Option<Operation>)
    requires index <= |workload|
  {
    var e := Replay(FRESH, workload[..index]);
    if op.None? then e.status.Failed?
    else e.status.Done? && FitsIn(e.state.recording, op.value, AllNames(workload)) && Exec(e.state, op.value).status.Done?
  }

  /** Behind the operation tried, the part after its place replays. */
  ghost predicate InsertReplays(workload: seq<Operation>, index: nat, op: Option<Operation>)
    requires index <= |workload|
  {
    op.Some? && Replay(Exec(Replay(FRESH, workload[..index]).state, op.value).state, workload[index..]).status.Done?
  }

  /** Tries to insert a random operation at the index: exactly when all before and after it replays there is a result. */
  method InsertOperation(workload: seq<Operation>, index: nat, weights: Weights, patience: nat)
      returns (r: Option<seq<Operation>>, ghost tried: Option<Operation>)
    requires index <= |workload| && Disciplined(workload) && forall op :: op in workload ==> Slashed(op)
    requires Replay(FRESH, workload[..index]).status.Done? ==> Choosable(Replay(FRESH, workload[..index]).state, weights)
    ensures InsertTried(workload, index, tried)
    ensures r.Some? <==> InsertReplays(workload, index, tried)
    ensures tried.Some? ==> Drew(Replay(FRESH, workload[..index]).state, weights, tried.value)
    ensures r.Some? ==> Good(r.value) && Inserted(r.value, workload[..index], tried.value, workload[index..])
  {
    var used := CollectNames(workload);
    var before, after := workload[..index], workload[index..];
    BothParts(workload, index, used);
    var fs, replayed := ReplayFirst(before);
    if replayed.Failure? {
      return None, None;
    }
    ghost var op;
    r, op := InsertHere(fs, before, after, used, weights, patience);
    tried := Some(op);
  }

  lemma BothParts(workload: seq<Operation>, index: nat, used: set<Name>)
    requires index <= |workload| && Disciplined(workload) && Covered(workload, used)
    requires forall op :: op in workload ==> Slashed(op)
    ensures workload == workload[..index] + workload[index..]
    ensures Disciplined(workload[..index])
    ensures Covered(workload[..index], used) && Covered(workload[index..], used)
    ensures forall op :: op in workload[..index] || op in workload[index..] ==> Slashed(op)
  {
    assert workload == workload[..index] + workload[index..];
    DisciplinedPrefix(workload[..index], workload[index..]);
  }

  /** The second half of an insertion, with the first part of the workload replayed. */
  method InsertHere(fs: AbstractFS, ghost before: seq<Operation>, after: seq<Operation>, used: set<Name>, weights: Weights, patience: nat)
      returns (r: Option<seq<Operation>>, ghost op: Operation)
    requires fs.Valid() && Replay(FRESH, before) == Effect(fs.View(), Done) && Fit(fs.View()) && SameNames(fs.recording, before)
    requires Disciplined(before + after) && Covered(before, used) && Covered(after, used)
    requires Choosable(fs.View(), weights) && forall op :: op in after ==> Slashed(op)
    modifies fs
    ensures FitsIn(old(fs.recording), op, used) && Exec(old(fs.View()), op).status.Done?
    ensures Drew(old(fs.View()), weights, op)
    ensures r.Some? <==> Replay(Exec(old(fs.View()), op).state, after).status.Done?
    ensures r.Some? ==> Good(r.value) && Inserted(r.value, before, op, after)
  {
    ghost var s := fs.View();
    var gen := new NameGen(used);
    SupplyOutside(before, s.recording, used);
    AppendOne(fs, weights, gen, patience);
    ghost var t := fs.View();
    op := StepTaken(s, t, used);
    AfterFollows(before, after, s, op, used);
    ReplayReturns(t, after);
    var replayed := fs.Replay(after);
    if replayed.Failure? {
      return None, op;
    }
    InsertedGood(before, after, s, op, fs.View());
    return Some(fs.recording), op;
  }

  lemma StepTaken(s: State, t: State, used: set<Name>) returns (op: Operation)
    requires Step(s, t, used)
    ensures FitsIn(s.recording, op, used) && Exec(s, op) == Effect(t, Done)
    ensures t.recording == s.recording + [op]
  {
    var made :| FitsIn(s.recording, made, used) && Exec(s, made) == Effect(t, Done);
    op := Logged(s, made);
    ExecRecords(s, made);
    LoggedSame(s, made);
    LoggedNames(s, made);
  }

  /** Numbers outside the names of a workload supply fresh names for every part of it. */
  lemma SupplyOutside(before: seq<Operation>, recording: seq<Operation>, used: set<Name>)
    requires Covered(before, used) && SameNames(recording, before)
    ensures Supplies(used, 0, recording)
  {
    forall i: nat | Decimal(i) !in used
      ensures FreshName(recording, Decimal(i))
    {
      DecimalProper(i);
      OutsideFresh(before, used, Decimal(i));
      SameRank(recording, before, Decimal(i));
      SameMentioned(recording, before, Decimal(i));
    }
  }

  lemma AfterFollows(before: seq<Operation>, after: seq<Operation>, s: State, op: Operation, used: set<Name>)
    requires Disciplined(before + after) && Covered(after, used) && SameNames(s.recording, before)
    requires FitsIn(s.recording, op, used) && Exec(s, op).status.Done?
    ensures Follows(Exec(s, op).state.recording, after)
  {
    ExecRecords(s, op);
    LoggedNames(s, op);
    SameThenSame(s.recording, before, after);
    SameDisciplined(s.recording + after, before + after);
    FollowsInserted(s.recording, Logged(s, op), after, used);
  }

  lemma SameThenSame(a: seq<Operation>, b: seq<Operation>, c: seq<Operation>)
    requires SameNames(a, b)
    ensures SameNames(a + c, b + c)
  {
  }

  lemma InsertedGood(before: seq<Operation>, after: seq<Operation>, s: State, op: Operation, u: State)
    requires Replay(FRESH, before) == Effect(s, Done) && Exec(s, op).status.Done?
    requires Replay(Exec(s, op).state, after) == Effect(u, Done) && Disciplined(u.recording)
    ensures Good(u.recording) && Inserted(u.recording, before, op, after)
  {
    ReplaySnoc(FRESH, before, op);
    ReplayConcat(FRESH, before + [op], after);
    ReplayFromScratch(before + [op] + after);
  }

  // ----- the greybox mutator

  datatype MutationKind = KindInsert | KindRemove

  type MutationWeights = seq<(MutationKind, nat)>

  /** Whether a mutation of this kind can be made on a workload of this length. */
  predicate Applicable(kind: MutationKind, length: nat, maxLength: nat) {
    match kind
    case KindInsert => length < maxLength
    case KindRemove => length > 0
  }

  function RetainedMutations(weights: MutationWeights, length: nat, maxLength: nat): (r: MutationWeights)
    ensures forall w :: w in r <==> w in weights && Applicable(w.0, length, maxLength)
  {
    if weights == [] then []
    else (if Applicable(weights[0].0, length, maxLength) then [weights[0]] else []) + RetainedMutations(weights[1..], length, maxLength)
  }

  /** Some mutation can be chosen. */
  predicate MutationChoosable(weights: MutationWeights, length: nat, maxLength: nat) {
    exists w :: w in weights && w.1 > 0 && Applicable(w.0, length, maxLength)
  }

  function Max(a: nat, b: nat): nat {
    if a >= b then a else b
  }

  /** One operation more, which needs room, or one fewer; all others stay, up to the numbers of Opens. */
  ghost predicate OneChange(input: seq<Operation>, output: seq<Operation>, maxLength: nat) {
    || (|output| == |input| + 1 <= maxLength && exists i, op :: 0 <= i <= |input| && Inserted(output, input[..i], op, input[i..]))
    || (|output| == |input| - 1 && exists i :: 0 <= i < |input| && output == Renumber(Without(input, i)))
  }

  /** What one try of the mutator comes to: a place, and for an insertion the operation tried there. */
  datatype Attempt = Insertion(index: nat, op: Option<Operation>) | Removal(index: nat)

  ghost predicate Possible(input: seq<Operation>, a: Attempt, maxLength: nat) {
    match a
    case Insertion(i, op) => i <= |input| < maxLength && InsertTried(input, i, op)
    case Removal(i) => i < |input|
  }

  /** The mutated workload replays. */
  ghost predicate Replays(input: seq<Operation>, a: Attempt)
    requires a.index < |input| || (a.Insertion? && a.index == |input|)
  {
    match a
    case Insertion(i, op) => InsertReplays(input, i, op)
    case Removal(i) => Replay(FRESH, Without(input, i)).status.Done?
  }

  /** The mutated workload, up to the numbers of Opens. */
  ghost predicate Mutated(input: seq<Operation>, a: Attempt, output: seq<Operation>)
    requires a.index < |input| || (a.Insertion? && a.index == |input|)
  {
    match a
    case Insertion(i, op) => op.Some? && Inserted(output, input[..i], op.value, input[i..])
    case Removal(i) => output == Renumber(Without(input, i))
  }

  /** Workloads that lead from one to another by single changes. */
  ghost predicate Chain(chain: seq<seq<Operation>>, input: seq<Operation>, output: seq<Operation>, maxLength: nat) {
    && chain != [] && chain[0] == input && chain[|chain| - 1] == output
    && forall k :: 0 <= k < |chain| - 1 ==> OneChange(chain[k], chain[k + 1], maxLength)
  }

  lemma InsertedChange(input: seq<Operation>, i: nat, op: Operation, output: seq<Operation>, maxLength: nat)
    requires i <= |input| < maxLength && Inserted(output, input[..i], op, input[i..])
    ensures OneChange(input, output, maxLength)
  {
  }

  lemma RemovedChange(input: seq<Operation>, i: nat, output: seq<Operation>, maxLength: nat)
    requires i < |input| && output == Renumber(Without(input, i))
    ensures OneChange(input, output, maxLength)
  {
  }

  class Mutator {
    const operationWeights: Weights
    const mutationWeights: MutationWeights
    const maxLength: nat
    const maxMutations: nat

    constructor (operationWeights: Weights, mutationWeights: MutationWeights, maxLength: nat, maxMutations: nat)
      ensures this.operationWeights == operationWeights && this.mutationWeights == mutationWeights
      ensures this.maxLength == maxLength && this.maxMutations == maxMutations
    {
      this.operationWeights := operationWeights;
      this.mutationWeights := mutationWeights;
      this.maxLength := maxLength;
      this.maxMutations := maxMutations;
    }

    /**
     One try: an operation more if there is room for it, or one fewer, exactly when the result replays; no
     change when it does not.
     */
    method MutateOnce(input: seq<Operation>, patience: nat) returns (changed: bool, output: seq<Operation>, ghost a: Attempt)
      requires Good(input) && MutationChoosable(mutationWeights, |input|, maxLength)
      requires forall s :: Choosable(s, operationWeights)
      ensures Possible(input, a, maxLength)
      ensures changed <==> Replays(input, a)
      ensures Good(output) && if changed then Mutated(input, a, output) else output == input
      ensures changed ==> OneChange(input, output, maxLength)
    {
      var mutations := RetainedMutations(mutationWeights, |input|, maxLength);
      assert exists w :: w in mutations && w.1 > 0 by {
        var w :| w in mutationWeights && w.1 > 0 && Applicable(w.0, |input|, maxLength);
        assert w in mutations;
      }
      var w :| w in mutations && w.1 > 0;
      match w.0 {
        case KindInsert =>
          var index: nat :| index <= |input|;
          ReplaySlashed(FRESH, input);
          var r, tried := InsertOperation(input, index, operationWeights, patience);
          a := Insertion(index, tried);
          if r.None? {
            return false, input, a;
          }
          InsertedChange(input, index, tried.value, r.value, maxLength);
          return true, r.value, a;
        case KindRemove =>
          var index: nat :| index < |input|;
          WithoutGood(input, index);
          var r := RemoveOperation(input, index);
          a := Removal(index);
          if r.None? {
            return false, input, a;
          }
          RemovedChange(input, index, r.value, maxLength);
          return true, r.value, a;
      }
    }

    /**
     Between one and `maxMutations` single changes. The source tries for as long as it takes; `attempts` is
     how long chance makes it take, so nothing is said here about a run that never ends.
     */
    method Mutate(input: seq<Operation>, attempts: nat, patience: nat)
        returns (output: seq<Operation>, ghost chain: seq<seq<Operation>>, ghost tries: seq<Attempt>)
      requires Good(input) && maxMutations > 0
      requires forall length :: MutationChoosable(mutationWeights, length, maxLength)
      requires forall s :: Choosable(s, operationWeights)
      ensures Good(output) && |output| <= Max(|input|, maxLength)
      ensures Chain(chain, input, output, maxLength) && |chain| - 1 <= maxMutations
      ensures |chain| == 1 ==> |tries| == attempts && forall a :: a in tries ==> Possible(input, a, maxLength) && !Replays(input, a)
    {
      output := input;
      chain := [input];
      tries := [];
      var count := 0;
      var n: nat :| 1 <= n <= maxMutations;
      var left := attempts;
      while count < n && left > 0
        invariant Good(output) && |output| <= Max(|input|, maxLength)
        invariant Chain(chain, input, output, maxLength) && |chain| == count + 1 && count <= n
        invariant |tries| + left == attempts
        invariant count == 0 ==> forall a :: a in tries ==> Possible(input, a, maxLength) && !Replays(input, a)
        decreases left
      {
        var changed: bool;
        ghost var a: Attempt;
        changed, output, a := MutateOnce(output, patience);
        tries := tries + [a];
        if changed {
          chain := chain + [output];
          count := count + 1;
        }
        left := left - 1;
      }
    }
  }
}

/**
 Reducing a test case while its difference stays the same (diffuzzer/src/fuzzing/reducer.rs). The harness,
 which compiles a workload and runs it on two filesystems, is some function from workloads to outcomes.
 */
module Reduction {
  import opened Pathname
  import opened Operations
  import opened Discipline
  import opened Workloads
  import opened Mutation
  import opened Listings

  datatype Errno = Errno(name: string, code: int)

  datatype TraceRow = TraceRow(index: nat, command: string, returnCode: int, errno: Errno, extra: string, source: string)

  datatype TraceDiff = TraceRowIsDifferent(fst: TraceRow, snd: TraceRow) | DifferentLength

  datatype DiffCompleted = DiffCompleted(dashDiff: seq<FileDiff>, traceDiff: seq<TraceDiff>) {
    predicate AnyInteresting() {
      dashDiff != [] || traceDiff != []
    }
  }

  datatype DiffOutcome =
    | Completed(diff: DiffCompleted)
    | FirstTimedOut | SecondTimedOut | FirstPanicked | SecondPanicked

  predicate IgnoreIndexEqual(a: TraceRow, b: TraceRow) {
    a.command == b.command && a.returnCode == b.returnCode && a.extra == b.extra && a.errno == b.errno
  }

  predicate SameTraceDiff(a: TraceDiff, b: TraceDiff) {
    match (a, b)
    case (DifferentLength, DifferentLength) => true
    case (TraceRowIsDifferent(f, s), TraceRowIsDifferent(g, t)) => IgnoreIndexEqual(f, g) && IgnoreIndexEqual(s, t)
    case _ => false
  }

  predicate SameDiff(a: DiffCompleted, b: DiffCompleted) {
    && |a.traceDiff| == |b.traceDiff|
    && (forall i :: 0 <= i < |a.traceDiff| ==> SameTraceDiff(a.traceDiff[i], b.traceDiff[i]))
    && a.dashDiff == b.dashDiff
  }

  method CheckSameDiff(a: DiffCompleted, b: DiffCompleted) returns (same: bool)
    ensures same <==> SameDiff(a, b)
  {
    if |a.traceDiff| != |b.traceDiff| {
      return false;
    }
    var i := 0;
    while i < |a.traceDiff|
      invariant 0 <= i <= |a.traceDiff|
      invariant forall j :: 0 <= j < i ==> SameTraceDiff(a.traceDiff[j], b.traceDiff[j])
    {
      if !SameTraceDiff(a.traceDiff[i], b.traceDiff[i]) {
        return false;
      }
      i := i + 1;
    }
    return a.dashDiff == b.dashDiff;
  }

  /** Sameness of differences is an equivalence, so accepting step after step does not drift. */
  lemma SameDiffEquivalence(a: DiffCompleted, b: DiffCompleted, c: DiffCompleted)
    ensures SameDiff(a, a)
    ensures SameDiff(a, b) ==> SameDiff(b, a)
    ensures SameDiff(a, b) && SameDiff(b, c) ==> SameDiff(a, c)
  {
    if SameDiff(a, b) && SameDiff(b, c) {
      forall i | 0 <= i < |a.traceDiff|
        ensures SameTraceDiff(a.traceDiff[i], c.traceDiff[i])
      {
        assert SameTraceDiff(a.traceDiff[i], b.traceDiff[i]) && SameTraceDiff(b.traceDiff[i], c.traceDiff[i]);
      }
    }
  }

  // ----- what sameness looks at

  function StripRow(r: TraceRow): TraceRow {
    r.(index := 0, source := "")
  }

  function StripTrace(t: TraceDiff): TraceDiff {
    match t
    case TraceRowIsDifferent(f, s) => TraceRowIsDifferent(StripRow(f), StripRow(s))
    case DifferentLength => DifferentLength
  }

  function Strip(d: DiffCompleted): DiffCompleted {
    d.(traceDiff := seq(|d.traceDiff|, i requires 0 <= i < |d.traceDiff| => StripTrace(d.traceDiff[i])))
  }

  /** Two differences are the same if and only if they are equal but for the index and the text of trace rows. */
  lemma SameDiffExactly(a: DiffCompleted, b: DiffCompleted)
    ensures SameDiff(a, b) <==> Strip(a) == Strip(b)
  {
    var x, y := Strip(a).traceDiff, Strip(b).traceDiff;
    if |a.traceDiff| == |b.traceDiff| {
      forall i | 0 <= i < |a.traceDiff|
        ensures SameTraceDiff(a.traceDiff[i], b.traceDiff[i]) <==> x[i] == y[i]
      {
        SameTraceExactly(a.traceDiff[i], b.traceDiff[i]);
      }
      if SameDiff(a, b) { assert x == y; }
    } else {
      assert |x| != |y|;
    }
  }

  lemma SameTraceExactly(t: TraceDiff, u: TraceDiff)
    ensures SameTraceDiff(t, u) <==> StripTrace(t) == StripTrace(u)
  {
  }

  /** A difference is of no interest if and only if it is the same as none. */
  lemma NotInteresting(d: DiffCompleted)
    ensures !d.AnyInteresting() <==> SameDiff(d, DiffCompleted([], []))
  {
  }

  // ----- deleting operations

  predicate SameOperation(a: Operation, b: Operation) {
    a == b || (a.Open? && b.Open? && a.path == b.path)
  }

  /** v is w with some operations deleted, up to the numbers of Opens. */
  predicate Deleted(w: seq<Operation>, v: seq<Operation>)
    decreases |w|
  {
    || v == []
    || (w != [] && v != [] && SameOperation(w[0], v[0]) && Deleted(w[1..], v[1..]))
    || (w != [] && Deleted(w[1..], v))
  }

  lemma {:induction false} DeletedTransitive(a: seq<Operation>, b: seq<Operation>, c: seq<Operation>)
    requires Deleted(a, b) && Deleted(b, c)
    ensures Deleted(a, c)
    decreases |a|
  {
    if c != [] {
      if SameOperation(a[0], b[0]) && Deleted(a[1..], b[1..]) {
        if SameOperation(b[0], c[0]) && Deleted(b[1..], c[1..]) {
          DeletedTransitive(a[1..], b[1..], c[1..]);
        } else {
          DeletedTransitive(a[1..], b[1..], c);
        }
      } else {
        DeletedTransitive(a[1..], b, c);
      }
    }
  }

  lemma {:induction false} SameIsDeleted(w: seq<Operation>, v: seq<Operation>)
    requires SameNames(w, v)
    ensures Deleted(w, v)
    decreases |w|
  {
    if v != [] {
      SameIsDeleted(w[1..], v[1..]);
    }
  }

  lemma {:induction false} WithoutIsDeleted(w: seq<Operation>, i: nat)
    requires i < |w|
    ensures Deleted(w, Without(w, i))
    decreases |w|
  {
    if i == 0 {
      assert Without(w, 0) == w[1..];
      SameIsDeleted(w[1..], w[1..]);
    } else {
      assert Without(w, i)[1..] == Without(w[1..], i - 1);
      WithoutIsDeleted(w[1..], i - 1);
    }
  }

  /** However much is deleted, replaying the rest returns; all that the reducer needs of a test case. */
  ghost predicate AllReturn(w: seq<Operation>) {
    forall v :: Deleted(w, v) ==> !Replay(FRESH, v).status.NoReturn?
  }

  lemma AllReturnDeleted(w: seq<Operation>, v: seq<Operation>)
    requires AllReturn(w) && Deleted(w, v)
    ensures AllReturn(v)
  {
    forall u | Deleted(v, u)
      ensures !Replay(FRESH, u).status.NoReturn?
    {
      DeletedTransitive(w, v, u);
    }
  }

  /** Opens aside, what comes before in a comes before in b too. */
  predicate Fewer(a: seq<Operation>, b: seq<Operation>) {
    forall x :: x in a && !x.Open? ==> x in b
  }

  lemma FreshFewer(a: seq<Operation>, b: seq<Operation>, op: Operation)
    requires FreshStep(b, op) && Fewer(a, b)
    ensures FreshStep(a, op)
  {
    var n := Introduced(op);
    if n.Some? {
      RankZero(a, n.value);
      RankZero(b, n.value);
      forall m | m in a + [op] && m.MakeSymlink?
        ensures n.value !in Segments(m.target)
      {
        assert m in b + [op];
      }
    }
  }

  lemma {:induction false} DeletedFollows(a: seq<Operation>, b: seq<Operation>, w: seq<Operation>, v: seq<Operation>)
    requires Follows(b, w) && Fewer(a, b) && Deleted(w, v)
    ensures Follows(a, v)
    decreases |w|
  {
    if v != [] {
      FollowsHead(b, w);
      assert SameNames([w[0]], [w[0]]);
      FollowsTail(b, w[0], w);
      if SameOperation(w[0], v[0]) && Deleted(w[1..], v[1..]) {
        assert Fewer(a + [v[0]], b + [w[0]]);
        DeletedFollows(a + [v[0]], b + [w[0]], w[1..], v[1..]);
        FreshFewer(a, b, w[0]);
        FollowsCons(a, v);
      } else {
        assert Fewer(a, b + [w[0]]);
        DeletedFollows(a, b + [w[0]], w[1..], v);
      }
    }
  }

  lemma FollowsCons(a: seq<Operation>, v: seq<Operation>)
    requires v != [] && FreshStep(a, v[0]) && Follows(a + [v[0]], v[1..])
    ensures Follows(a, v)
  {
    forall j | 0 <= j < |v|
      ensures FreshStep(a + v[..j], v[j])
    {
      if j == 0 {
        assert a + v[..0] == a;
      } else {
        assert FreshStep(a + [v[0]] + v[1..][..j - 1], v[1..][j - 1]);
        assert a + [v[0]] + v[1..][..j - 1] == a + v[..j];
      }
    }
  }

  lemma {:induction false} DeletedSlashed(w: seq<Operation>, v: seq<Operation>)
    requires Deleted(w, v) && forall op :: op in w ==> Slashed(op)
    ensures forall op :: op in v ==> Slashed(op)
    decreases |w|
  {
    if v != [] {
      assert v == [v[0]] + v[1..];
      if SameOperation(w[0], v[0]) && Deleted(w[1..], v[1..]) {
        assert w[0] in w;
        DeletedSlashed(w[1..], v[1..]);
      } else {
        DeletedSlashed(w[1..], v);
      }
    }
  }

  /** Disciplined workloads, which is what the fuzzer makes, can be reduced. */
  lemma DisciplinedAllReturn(w: seq<Operation>)
    requires Disciplined(w) && forall op :: op in w ==> Slashed(op)
    ensures AllReturn(w)
  {
    forall v | Deleted(w, v)
      ensures !Replay(FRESH, v).status.NoReturn?
    {
      FollowsDisciplined([], w);
      assert [] + w == w;
      DeletedFollows([], [], w, v);
      DeletedSlashed(w, v);
      FreshFit();
      ReplayReturns(FRESH, v);
    }
  }

  // ----- the reducer

  /** What the reducer saves along the way. */
  datatype Report = Reduced(workload: seq<Operation>) | Variation(index: nat, workload: seq<Operation>) | Crash(index: nat, workload: seq<Operation>)

  /** A report tells the truth about its workload. */
  ghost predicate Truthful(r: Report, original: DiffCompleted, input: seq<Operation>, run: seq<Operation> -> DiffOutcome) {
    && Deleted(input, r.workload)
    && match r
       case Reduced(w) => run(w).Completed? && run(w).diff.AnyInteresting() && SameDiff(original, run(w).diff)
       case Variation(_, w) => run(w).Completed? && run(w).diff.AnyInteresting() && !SameDiff(original, run(w).diff)
       case Crash(_, w) => !run(w).Completed?
  }

  /** Whether the reducer does without an operation: the rest replays, and the harness shows the same difference. */
  ghost predicate Dispensable(w: seq<Operation>, i: nat, original: DiffCompleted, run: seq<Operation> -> DiffOutcome)
    requires i < |w|
  {
    && Replay(FRESH, Without(w, i)).status.Done?
    && var outcome := run(Renumber(Without(w, i)));
       outcome.Completed? && outcome.diff.AnyInteresting() && SameDiff(original, outcome.diff)
  }

  /** What is left after going from index i down to zero. */
  ghost function Reduce(w: seq<Operation>, i: int, original: DiffCompleted, run: seq<Operation> -> DiffOutcome): seq<Operation>
    requires i < |w|
    decreases i
  {
    if i < 0 then w
    else if Dispensable(w, i, original, run) then Reduce(Renumber(Without(w, i)), i - 1, original, run)
    else Reduce(w, i - 1, original, run)
  }

  /** A pass that leaves a workload as it is has found every single operation necessary. */
  lemma {:induction false} ReduceFixed(w: seq<Operation>, i: int, original: DiffCompleted, run: seq<Operation> -> DiffOutcome)
    requires i < |w|
    ensures |Reduce(w, i, original, run)| <= |w|
    ensures Reduce(w, i, original, run) == w <==> forall j :: 0 <= j <= i ==> !Dispensable(w, j, original, run)
    decreases i
  {
    if i >= 0 {
      if Dispensable(w, i, original, run) {
        ReduceFixed(Renumber(Without(w, i)), i - 1, original, run);
      } else {
        ReduceFixed(w, i - 1, original, run);
      }
    }
  }

  /** What is reported of one try. */
  ghost function ReportOf(w: seq<Operation>, i: nat, original: DiffCompleted, run: seq<Operation> -> DiffOutcome): seq<Report>
    requires i < |w|
  {
    if !Replay(FRESH, Without(w, i)).status.Done? then []
    else
      var v := Renumber(Without(w, i));
      match run(v)
      case Completed(d) => if !d.AnyInteresting() then [] else if SameDiff(original, d) then [Reduced(v)] else [Variation(i, v)]
      case _ => [Crash(i, v)]
  }

  ghost function ReportsFrom(w: seq<Operation>, i: int, original: DiffCompleted, run: seq<Operation> -> DiffOutcome, before: seq<Report>): seq<Report>
    requires i < |w|
    decreases i
  {
    if i < 0 then before
    else
      ReportsFrom(if Dispensable(w, i, original, run) then Renumber(Without(w, i)) else w, i - 1, original, run, before + ReportOf(w, i, original, run))
  }

  function Reductions(reports: seq<Report>): nat {
    if reports == [] then 0 else Reductions(reports[..|reports| - 1]) + if reports[|reports| - 1].Reduced? then 1 else 0
  }

  lemma ReductionsOf(before: seq<Report>, w: seq<Operation>, i: nat, original: DiffCompleted, run: seq<Operation> -> DiffOutcome)
    requires i < |w|
    ensures Reductions(before + ReportOf(w, i, original, run)) == Reductions(before) + if Dispensable(w, i, original, run) then 1 else 0
  {
    var more := ReportOf(w, i, original, run);
    if more == [] {
      assert before + more == before;
    } else {
      assert (before + more)[..|before + more| - 1] == before;
    }
  }

  /** Every reduction that is kept is reported, once. */
  lemma {:induction false} ReductionsCount(w: seq<Operation>, i: int, original: DiffCompleted, run: seq<Operation> -> DiffOutcome, before: seq<Report>)
    requires i < |w|
    ensures Reductions(ReportsFrom(w, i, original, run, before)) + |Reduce(w, i, original, run)| == Reductions(before) + |w|
    decreases i
  {
    if i >= 0 {
      ReductionsOf(before, w, i, original, run);
      ReductionsCount(if Dispensable(w, i, original, run) then Renumber(Without(w, i)) else w, i - 1, original, run, before + ReportOf(w, i, original, run));
    }
  }

  /**
   One pass from the last operation to the first. The result is the input with operations deleted, its
   difference is still the original one, and the harness ran at most once for each operation of the input.
   */
  method ReduceByDiff(input: seq<Operation>, original: DiffCompleted, run: seq<Operation> -> DiffOutcome)
      returns (bugcase: seq<Operation>, reports: seq<Report>, runs: nat)
    requires input != [] && AllReturn(input)
    ensures Deleted(input, bugcase)
    ensures bugcase == input || (run(bugcase).Completed? && SameDiff(original, run(bugcase).diff))
    ensures run(input) == Completed(original) ==> run(bugcase).Completed? && SameDiff(original, run(bugcase).diff)
    ensures forall r :: r in reports ==> Truthful(r, original, input, run)
    ensures runs <= |input|
    ensures bugcase == Reduce(input, |input| - 1, original, run)
    ensures reports == ReportsFrom(input, |input| - 1, original, run, [])
  {
    bugcase := input;
    reports := [];
    runs := 0;
    SameIsDeleted(input, input);
    SameDiffEquivalence(original, original, original);
    var idxToRemove := |bugcase| - 1;
    while true
      invariant 0 <= idxToRemove < |bugcase|
      invariant runs + idxToRemove < |input|
      invariant Reduce(bugcase, idxToRemove, original, run) == Reduce(input, |input| - 1, original, run)
      invariant ReportsFrom(bugcase, idxToRemove, original, run, reports) == ReportsFrom(input, |input| - 1, original, run, [])
      invariant Deleted(input, bugcase) && AllReturn(bugcase)
      invariant bugcase == input || (run(bugcase).Completed? && SameDiff(original, run(bugcase).diff))
      invariant forall r :: r in reports ==> Truthful(r, original, input, run)
      decreases idxToRemove
    {
      WithoutIsDeleted(bugcase, idxToRemove);
      assert reports + [] == reports;
      var removed := RemoveOperation(bugcase, idxToRemove);
      if removed.Some? {
        var reduced := removed.value;
        ShortenedIsDeleted(input, bugcase, idxToRemove, reduced);
        runs := runs + 1;
        match run(reduced) {
          case Completed(nextDiff) =>
            if nextDiff.AnyInteresting() {
              var same := CheckSameDiff(original, nextDiff);
              if same {
                AllReturnDeleted(bugcase, reduced);
                bugcase := reduced;
                reports := reports + [Reduced(bugcase)];
              } else {
                reports := reports + [Variation(idxToRemove, reduced)];
              }
            }
          case _ =>
            reports := reports + [Crash(idxToRemove, reduced)];
        }
      }
      if idxToRemove == 0 {
        break;
      }
      idxToRemove := idxToRemove - 1;
    }
  }

  lemma ShortenedIsDeleted(input: seq<Operation>, w: seq<Operation>, i: nat, reduced: seq<Operation>)
    requires Deleted(input, w) && i < |w| && reduced == Renumber(Without(w, i))
    ensures Deleted(input, reduced) && Deleted(w, reduced) && |reduced| == |w| - 1
  {
    var v := Without(w, i);
    WithoutIsDeleted(w, i);
    RenumberSame(0, v);
    assert SameNames(v, reduced);
    SameIsDeleted(v, reduced);
    DeletedTransitive(w, v, reduced);
    DeletedTransitive(input, w, reduced);
  }
}

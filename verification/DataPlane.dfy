/**
 Seen through descriptors, the filesystem is a table of plain sequences with offsets into them: a
 simulation over whole runs (diffuzzer/src/abstract_fs/fs.rs, open to write).
 */
module DataPlane {
  import opened Wrappers
  import opened Nodes
  import opened Resolution
  import opened Contents
  import opened Operations
  import opened Invariants

  /** Files as flat sequences, the open descriptor of each, and every descriptor ever opened. */
  datatype Plain = Plain(files: seq<seq<nat>>, open: seq<Option<nat>>, handles: seq<Descriptor>)

  function Abs(s: State): Plain {
    Plain(
      seq(|s.files|, f requires 0 <= f < |s.files| => Flat(s.files[f].content)),
      seq(|s.files|, f requires 0 <= f < |s.files| => s.files[f].descriptor),
      s.descriptors)
  }

  predicate PlainOk(t: Plain) {
    && |t.open| == |t.files|
    && forall k :: 0 <= k < |t.handles| ==> t.handles[k].file < |t.files| && t.handles[k].offset <= |t.files[t.handles[k].file]|
  }

  /** What a read of n returns. */
  function PlainRead(t: Plain, des: nat, n: nat): seq<nat>
    requires PlainOk(t) && des < |t.handles|
  {
    var h := t.handles[des];
    t.files[h.file][h.offset..Min(h.offset + n, |t.files[h.file]|)]
  }

  function Moved(t: Plain, des: nat, n: nat): seq<Descriptor>
    requires des < |t.handles|
  {
    t.handles[des := t.handles[des].(offset := t.handles[des].offset + n)]
  }

  /** One successful call; `target` is the file that an Open finds. Names play no part. */
  function PlainStep(t: Plain, op: Operation, target: nat): Plain
    requires PlainOk(t) && (Used(op).Some? ==> Used(op).value < |t.handles|) && (op.Open? ==> target < |t.files|)
  {
    match op
    case Create(_, _) => t.(files := t.files + [[]], open := t.open + [None])
    case Open(_, _) => t.(open := t.open[target := Some(|t.handles|)], handles := t.handles + [Descriptor(target, 0)])
    case Close(des) => t.(open := t.open[t.handles[des].file := None])
    case Read(des, n) => t.(handles := Moved(t, des, |PlainRead(t, des, n)|))
    case Write(des, src, n) =>
      var h := t.handles[des];
      t.(files := t.files[h.file := Overwrite(t.files[h.file], src, h.offset, n)], handles := Moved(t, des, n))
    case _ => t
  }

  lemma AbsOk(s: State)
    requires DataOk(s.files, s.descriptors)
    ensures PlainOk(Abs(s))
  {
    forall k | 0 <= k < |s.descriptors|
      ensures s.descriptors[k].offset <= |Abs(s).files[s.descriptors[k].file]|
    {
      FlatSize(s.files[s.descriptors[k].file].content);
    }
  }

  /** What a read returns, as plain data. */
  lemma ReadSimulates(s: State, des: nat, n: nat)
    requires DataOk(s.files, s.descriptors) && FileOf(s, des).Ok?
    ensures PlainOk(Abs(s))
    ensures Flat(ReadResult(s, des, n)) == PlainRead(Abs(s), des, n)
    ensures TotalSize(ReadResult(s, des, n)) == |PlainRead(Abs(s), des, n)|
  {
    AbsOk(s);
    ReadIsSlice(s.files[s.descriptors[des].file].content, s.descriptors[des].offset, n);
    FlatSize(ReadResult(s, des, n));
  }

  lemma WriteSimulates(s: State, des: nat, src: nat, n: nat)
    requires DataOk(s.files, s.descriptors) && ExecWrite(s, des, src, n).status.Done?
    ensures PlainOk(Abs(s))
    ensures Abs(ExecWrite(s, des, src, n).state) == PlainStep(Abs(s), Write(des, src, n), 0)
  {
    AbsOk(s);
    var f := s.descriptors[des].file;
    WriteIsOverwrite(s.files[f].content, src, s.descriptors[des].offset, n);
    assert Abs(ExecWrite(s, des, src, n).state).files == PlainStep(Abs(s), Write(des, src, n), 0).files;
  }

  /** The file an Open finds. */
  ghost function Opened(s: State, op: Operation): nat {
    if op.Open? && ResolveFile(s.ns, op.path).Ok? then ResolveFile(s.ns, op.path).value else 0
  }

  lemma CreateSimulates(s: State, op: Operation)
    requires DataOk(s.files, s.descriptors) && op.Create? && Exec(s, op).status.Done?
    ensures PlainOk(Abs(s))
    ensures Abs(Exec(s, op).state) == PlainStep(Abs(s), op, 0)
  {
    AbsOk(s);
    var t := Exec(s, op).state;
    assert Abs(t).files == Abs(s).files + [[]];
    assert Abs(t).open == Abs(s).open + [None];
  }

  lemma OpenSimulates(s: State, op: Operation)
    requires DataOk(s.files, s.descriptors) && op.Open? && Exec(s, op).status.Done?
    ensures PlainOk(Abs(s)) && Opened(s, op) < |s.files|
    ensures Abs(Exec(s, op).state) == PlainStep(Abs(s), op, Opened(s, op))
  {
    AbsOk(s);
    var t := Exec(s, op).state;
    assert Abs(t).files == Abs(s).files;
    assert Abs(t).open == Abs(s).open[Opened(s, op) := Some(|s.descriptors|)];
  }

  lemma CloseSimulates(s: State, op: Operation)
    requires DataOk(s.files, s.descriptors) && op.Close? && Exec(s, op).status.Done?
    ensures PlainOk(Abs(s)) && op.des < |s.descriptors|
    ensures Abs(Exec(s, op).state) == PlainStep(Abs(s), op, 0)
  {
    AbsOk(s);
    var t := Exec(s, op).state;
    assert Abs(t).files == Abs(s).files;
    assert Abs(t).open == Abs(s).open[s.descriptors[op.des].file := None];
  }

  lemma NamesSimulate(s: State, op: Operation)
    requires DataOk(s.files, s.descriptors) && Exec(s, op).status.Done?
    requires op.MkDir? || op.Remove? || op.Hardlink? || op.Rename? || op.MakeSymlink? || op.FSync?
    ensures Abs(Exec(s, op).state) == Abs(s)
  {
    assert Exec(s, op).state.files == s.files && Exec(s, op).state.descriptors == s.descriptors;
  }

  /** A successful call of any kind does to the plain files what the plain step does. */
  lemma Simulates(s: State, op: Operation)
    requires DataInv(s) && Exec(s, op).status.Done?
    ensures PlainOk(Abs(s))
    ensures Used(op).Some? ==> Used(op).value < |s.descriptors|
    ensures op.Open? ==> Opened(s, op) < |s.files|
    ensures Abs(Exec(s, op).state) == PlainStep(Abs(s), op, Opened(s, op))
  {
    AbsOk(s);
    match op
    case Read(des, n) => ReadSimulates(s, des, n);
    case Write(des, src, n) => WriteSimulates(s, des, src, n);
    case Create(_, _) => CreateSimulates(s, op);
    case Open(_, _) => OpenSimulates(s, op);
    case Close(des) => CloseSimulates(s, op);
    case _ => NamesSimulate(s, op);
  }

  // ----- whole runs

  /** What a run does to files and descriptors: its successful calls, each with the file that an Open finds. */
  ghost function Events(s: State, calls: seq<Operation>): seq<(Operation, nat)>
    decreases |calls|
  {
    if calls == [] then []
    else
      (if Exec(s, calls[0]).status.Done? then [(calls[0], Opened(s, calls[0]))] else []) + Events(Exec(s, calls[0]).state, calls[1..])
  }

  /** One event in a plain table after another; None if one does not make sense there. */
  function PlainRun(t: Plain, events: seq<(Operation, nat)>): Option<Plain>
    decreases |events|
  {
    if events == [] then Some(t)
    else
      var (op, target) := events[0];
      if PlainOk(t) && (Used(op).Some? ==> Used(op).value < |t.handles|) && (op.Open? ==> target < |t.files|)
      then PlainRun(PlainStep(t, op, target), events[1..])
      else None
  }

  /** A run, seen through descriptors, is the run of its events in the plain table, whatever happens to names. */
  lemma {:induction false} RunSimulates(s: State, calls: seq<Operation>)
    requires DataInv(s)
    ensures PlainRun(Abs(s), Events(s, calls)) == Some(Abs(RunAll(s, calls)))
    decreases |calls|
  {
    if calls != [] {
      var op := calls[0];
      var t := Exec(s, op).state;
      DataStep(s, op);
      RunSimulates(t, calls[1..]);
      if Exec(s, op).status.Done? {
        Simulates(s, op);
        var rest := Events(t, calls[1..]);
        assert Events(s, calls) == [(op, Opened(s, op))] + rest;
        assert Events(s, calls)[1..] == rest;
      } else {
        FailKeepsData(s, op);
        assert Events(s, calls) == Events(t, calls[1..]);
      }
    }
  }

  /** A successful write through a descriptor of the file. */
  predicate WritesTo(s: State, op: Operation, f: nat) {
    op.Write? && FileOf(s, op.des) == Ok(f) && ExecWrite(s, op.des, op.srcOffset, op.size).status.Done?
  }

  /** No call of a run writes to the file. */
  ghost predicate NeverWritten(s: State, calls: seq<Operation>, f: nat)
    decreases |calls|
  {
    calls == [] || (!WritesTo(s, calls[0], f) && NeverWritten(Exec(s, calls[0]).state, calls[1..], f))
  }

  /** A file is still there, no smaller, and the same if it was not written to. */
  ghost predicate Kept(s: State, t: State, f: nat, written: bool) {
    && f < |s.files| <= |t.files|
    && |Abs(s).files[f]| <= |Abs(t).files[f]|
    && (!written ==> Abs(t).files[f] == Abs(s).files[f])
  }

  lemma StepKeepsFile(s: State, op: Operation, f: nat)
    requires DataInv(s) && f < |s.files|
    ensures Kept(s, Exec(s, op).state, f, WritesTo(s, op, f))
  {
    var t := Exec(s, op).state;
    assert |Abs(t).files| == |t.files|;
    if Exec(s, op).status.Done? {
      Simulates(s, op);
      AbsOk(s);
    } else {
      FailKeepsData(s, op);
      assert Abs(t) == Abs(s);
    }
  }

  /**
   Over any calls at all, successful or not, no file is lost or shrinks, also when it is unlinked or only
   open; and a file keeps its contents unless a call writes to it through one of its descriptors.
   */
  lemma {:induction false} RunGrows(s: State, calls: seq<Operation>, f: nat)
    requires DataInv(s) && f < |s.files|
    ensures Kept(s, RunAll(s, calls), f, !NeverWritten(s, calls, f))
    decreases |calls|
  {
    if calls != [] {
      var op := calls[0];
      var t := Exec(s, op).state;
      StepKeepsFile(s, op, f);
      DataStep(s, op);
      RunGrows(t, calls[1..], f);
    }
  }

  /** Opening a file, now or after it was closed, and reading it gives the contents from the start. */
  lemma ReopenReads(s: State, path: string, n: nat)
    requires DataInv(s) && ExecOpen(s, path).status.Done?
    ensures var t := ExecOpen(s, path).state;
            var des := |s.descriptors|;
            var f := ResolveFile(s.ns, path).value;
            && f < |s.files|
            && FileOf(t, des) == Ok(f)
            && Flat(ReadResult(t, des, n)) == Abs(s).files[f][..Min(n, |Abs(s).files[f]|)]
  {
    var t := ExecOpen(s, path).state;
    DataStep(s, Open(path, 0));
    assert Exec(s, Open(path, 0)) == ExecOpen(s, path);
    ReadSimulates(t, |s.descriptors|, n);
  }
}

/**
 Workloads as C code (diffuzzer/src/abstract_fs/encode.rs), statement by statement: which descriptor
 variables are declared, and where they are assigned and used.
 */
module Encoding {
  import opened Wrappers
  import opened Operations
  import opened Invariants
  import opened Names

  datatype Statement =
    | IncludeExecutor
    | Declare(vars: seq<string>)
    | NoDescriptors
    | Begin
    | Call(callee: string, args: seq<string>)
    | Assign(variable: string, path: string)
    | Use(callee: string, variable: string, numbers: seq<nat>)
    | End

  function VarName(des: nat): string {
    "fd_" + Decimal(des)
  }

  lemma VarInjective(a: nat, b: nat)
    requires VarName(a) == VarName(b)
    ensures a == b
  {
    assert VarName(a)[3..] == Decimal(a) && VarName(b)[3..] == Decimal(b);
    DecimalInjective(a, b);
  }

  function Joined(mode: Mode): string {
    if mode == [] then "0" else if |mode| == 1 then mode[0] else mode[0] + " | " + Joined(mode[1..])
  }

  function Encoded(op: Operation): Statement {
    match op
    case Create(path, mode) => Call("do_create", [path, Joined(mode)])
    case MkDir(path, mode) => Call("do_mkdir", [path, Joined(mode)])
    case Remove(path) => Call("do_remove", [path])
    case Hardlink(oldPath, newPath) => Call("do_hardlink", [oldPath, newPath])
    case Rename(oldPath, newPath) => Call("do_rename", [oldPath, newPath])
    case Open(path, des) => Assign(VarName(des), path)
    case Close(des) => Use("do_close", VarName(des), [])
    case Read(des, size) => Use("do_read", VarName(des), [size])
    case Write(des, srcOffset, size) => Use("do_write", VarName(des), [srcOffset, size])
    case FSync(des) => Use("do_fsync", VarName(des), [])
    case MakeSymlink(target, linkPath) => Call("do_symlink", [target, linkPath])
  }

  /** One more than the largest descriptor opened, zero if none is. */
  function Declared(ops: seq<Operation>): nat {
    if ops == [] then 0
    else
      var n := Declared(ops[..|ops| - 1]);
      var op := ops[|ops| - 1];
      if op.Open? && op.des + 1 > n then op.des + 1 else n
  }

  function Variables(n: nat): seq<string> {
    seq(n, k requires 0 <= k => VarName(k))
  }

  function Body(ops: seq<Operation>): seq<Statement> {
    seq(|ops|, j requires 0 <= j < |ops| => Encoded(ops[j]))
  }

  function Code(ops: seq<Operation>): seq<Statement> {
    [IncludeExecutor, if Declared(ops) > 0 then Declare(Variables(Declared(ops))) else NoDescriptors, Begin] + Body(ops) + [End]
  }

  method EncodeC(ops: seq<Operation>) returns (result: seq<Statement>)
    ensures result == Code(ops)
  {
    result := [IncludeExecutor];
    var descriptorsN := 0;
    var i := 0;
    while i < |ops|
      invariant 0 <= i <= |ops|
      invariant descriptorsN == Declared(ops[..i])
    {
      assert ops[..i + 1][..i] == ops[..i];
      if ops[i].Open? {
        descriptorsN := if ops[i].des + 1 > descriptorsN then ops[i].des + 1 else descriptorsN;
      }
      i := i + 1;
    }
    assert ops[..i] == ops;
    if descriptorsN > 0 {
      result := result + [Declare(Variables(descriptorsN))];
    } else {
      result := result + [NoDescriptors];
    }
    result := result + [Begin];
    ghost var head := result;
    i := 0;
    while i < |ops|
      invariant 0 <= i <= |ops|
      invariant result == head + Body(ops[..i])
    {
      assert Body(ops[..i + 1]) == Body(ops[..i]) + [Encoded(ops[i])];
      result := result + [Encoded(ops[i])];
      i := i + 1;
    }
    assert ops[..i] == ops;
    result := result + [End];
  }

  // ----- reading the code back

  /** What a reader of the code knows of its variables so far; None once something is wrong. */
  datatype Reader = Reader(declared: set<string>, valued: set<string>, closed: set<string>)

  /** Variables are declared once, assigned once after that, used only when assigned, and never after a close. */
  function ReadOne(r: Option<Reader>, st: Statement): Option<Reader> {
    if r.None? then None
    else
      var k := r.value;
      match st
      case Declare(vars) =>
        if k.declared == {} && forall i, j :: 0 <= i < j < |vars| ==> vars[i] != vars[j]
        then Some(k.(declared := set v | v in vars)) else None
      case Assign(v, _) =>
        if v in k.declared && v !in k.valued then Some(k.(valued := k.valued + {v})) else None
      case Use(f, v, _) =>
        if v in k.valued && v !in k.closed then Some(if f == "do_close" then k.(closed := k.closed + {v}) else k) else None
      case _ => r
  }

  function ReadAll(r: Option<Reader>, code: seq<Statement>): Option<Reader> {
    if code == [] then r else ReadOne(ReadAll(r, code[..|code| - 1]), code[|code| - 1])
  }

  lemma {:induction false} ReadConcat(r: Option<Reader>, a: seq<Statement>, b: seq<Statement>)
    ensures ReadAll(r, a + b) == ReadAll(ReadAll(r, a), b)
    decreases |b|
  {
    if b == [] {
      assert a + b == a;
    } else {
      assert (a + b)[..|a + b| - 1] == a + b[..|b| - 1];
      ReadConcat(r, a, b[..|b| - 1]);
    }
  }

  function Vars(n: nat): set<string> {
    set k | 0 <= k < n :: VarName(k)
  }

  /** The variables closed by some operations. */
  function ClosedBy(ops: seq<Operation>): set<string> {
    set op | op in ops && op.Close? :: VarName(op.des)
  }

  /** In a recording the numbers of Opens run from zero up. */
  lemma {:induction false} DeclaredIsOpens(ops: seq<Operation>)
    requires LifeCycle(ops)
    ensures Declared(ops) == Opens(ops)
    decreases |ops|
  {
    if ops != [] {
      var init, op := ops[..|ops| - 1], ops[|ops| - 1];
      assert ops == init + [op];
      LifeCycleSnoc(init, op);
      DeclaredIsOpens(init);
    }
  }

  lemma NotClosedVar(ops: seq<Operation>, k: nat)
    requires Close(k) !in ops
    ensures VarName(k) !in ClosedBy(ops)
  {
    if VarName(k) in ClosedBy(ops) {
      var op :| op in ops && op.Close? && VarName(op.des) == VarName(k);
      VarInjective(op.des, k);
      assert false;
    }
  }

  lemma ClosedBySnoc(ops: seq<Operation>, op: Operation)
    ensures ClosedBy(ops + [op]) == ClosedBy(ops) + if op.Close? then {VarName(op.des)} else {}
  {
  }

  /** The next variable has not been assigned yet. */
  lemma NextVar(k: nat)
    ensures VarName(k) !in Vars(k) && Vars(k + 1) == Vars(k) + {VarName(k)}
  {
    if VarName(k) in Vars(k) {
      var i :| 0 <= i < k && VarName(i) == VarName(k);
      VarInjective(i, k);
      assert false;
    }
  }

  lemma OneReads(init: seq<Operation>, op: Operation, n: nat)
    requires InTurn(init, op) && Opens(init) + (if op.Open? then 1 else 0) <= n
    ensures ReadOne(Some(Reader(Vars(n), Vars(Opens(init)), ClosedBy(init))), Encoded(op))
            == Some(Reader(Vars(n), Vars(Opens(init) + if op.Open? then 1 else 0), ClosedBy(init + [op])))
  {
    ClosedBySnoc(init, op);
    assert ClosedBy(init) + {} == ClosedBy(init);
    if op.Open? {
      NextVar(op.des);
      assert VarName(op.des) in Vars(n);
    } else if Used(op).Some? {
      NotClosedVar(init, Used(op).value);
      assert VarName(Used(op).value) in Vars(Opens(init));
      assert "do_read"[3] == 'r' && "do_write"[3] == 'w' && "do_fsync"[3] == 'f' && "do_close"[3] == 'c';
    }
  }

  lemma {:induction false} BodyReads(ops: seq<Operation>, n: nat)
    requires LifeCycle(ops) && Opens(ops) <= n
    ensures ReadAll(Some(Reader(Vars(n), {}, {})), Body(ops)) == Some(Reader(Vars(n), Vars(Opens(ops)), ClosedBy(ops)))
    decreases |ops|
  {
    if ops != [] {
      var init, op := ops[..|ops| - 1], ops[|ops| - 1];
      assert ops == init + [op];
      LifeCycleSnoc(init, op);
      BodyReads(init, n);
      assert Body(ops)[..|Body(ops)| - 1] == Body(init);
      OneReads(init, op, n);
    } else {
      assert Vars(0) == {} && ClosedBy([]) == {};
    }
  }

  /**
   The code for any recording declares exactly the descriptors opened, assigns each once, and uses each only
   between its assignment and its close.
   */
  lemma CodeReads(ops: seq<Operation>)
    requires LifeCycle(ops)
    ensures ReadAll(Some(Reader({}, {}, {})), Code(ops)) == Some(Reader(Vars(Opens(ops)), Vars(Opens(ops)), ClosedBy(ops)))
  {
    DeclaredIsOpens(ops);
    var n := Opens(ops);
    var start := Some(Reader({}, {}, {}));
    var head := [IncludeExecutor, if n > 0 then Declare(Variables(n)) else NoDescriptors, Begin];
    HeadReads(n);
    BodyReads(ops, n);
    ReadConcat(start, head, Body(ops));
    ReadConcat(start, head + Body(ops), [End]);
    assert [End][..0] == [];
  }

  /** So does the code for whatever has been recorded after any calls at all. */
  lemma RunCodeReads(calls: seq<Operation>)
    ensures var ops := RunAll(FRESH, calls).recording;
            ReadAll(Some(Reader({}, {}, {})), Code(ops)) == Some(Reader(Vars(Opens(ops)), Vars(Opens(ops)), ClosedBy(ops)))
  {
    FreshInv();
    RunData(FRESH, calls);
    CodeReads(RunAll(FRESH, calls).recording);
  }

  lemma HeadReads(n: nat)
    ensures ReadAll(Some(Reader({}, {}, {})), [IncludeExecutor, if n > 0 then Declare(Variables(n)) else NoDescriptors, Begin])
            == Some(Reader(Vars(n), {}, {}))
  {
    var start := Some(Reader({}, {}, {}));
    var second := if n > 0 then Declare(Variables(n)) else NoDescriptors;
    forall i, j | 0 <= i < j < n
      ensures Variables(n)[i] != Variables(n)[j]
    {
      if VarName(i) == VarName(j) { VarInjective(i, j); }
    }
    assert (set v | v in Variables(n)) == Vars(n) by {
      forall k | 0 <= k < n
        ensures VarName(k) in Variables(n)
      {
        assert Variables(n)[k] == VarName(k);
      }
    }
    assert [IncludeExecutor, second, Begin][..2] == [IncludeExecutor, second];
    assert [IncludeExecutor, second][..1] == [IncludeExecutor];
    assert [IncludeExecutor][..0] == [];
    assert ReadAll(start, [IncludeExecutor]) == start;
    assert n == 0 ==> Vars(n) == {};
  }
}

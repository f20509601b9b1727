/**
 Reading workloads back from their C code (diffuzzer/src/abstract_fs/encode.rs), by the signatures of the
 functions that it calls (executor/executor.h): nothing is lost, and every argument is in its place.
 */
module Decoding {
  import opened Wrappers
  import opened Operations
  import opened Names
  import opened Encoding

  // ----- numbers

  function DigitOf(c: char): Option<nat> {
    if '0' <= c <= '9' then Some((c - '0') as nat) else None
  }

  /** The number that a decimal stands for. */
  function NumberOf(text: string): Option<nat> {
    if text == "" then None
    else
      var d := DigitOf(text[|text| - 1]);
      if d.None? then None
      else if |text| == 1 then d
      else
        var n := NumberOf(text[..|text| - 1]);
        if n.None? then None else Some(10 * n.value + d.value)
  }

  lemma DigitBack(d: nat)
    requires d < 10
    ensures DigitOf(Digit(d)) == Some(d)
  {
  }

  lemma {:induction false} NumberBack(n: nat)
    ensures Decimal(n) != "" && NumberOf(Decimal(n)) == Some(n)
  {
    var text := Decimal(n);
    DigitBack(n % 10);
    if n >= 10 {
      NumberBack(n / 10);
      assert text[..|text| - 1] == Decimal(n / 10);
    }
  }

  function DescriptorOf(variable: string): Option<nat> {
    if |variable| > 3 && variable[..3] == "fd_" then NumberOf(variable[3..]) else None
  }

  lemma DescriptorBack(des: nat)
    ensures DescriptorOf(VarName(des)) == Some(des)
  {
    NumberBack(des);
    assert VarName(des)[..3] == "fd_" && VarName(des)[3..] == Decimal(des);
  }

  // ----- modes

  /** The names of mode flags: not empty, without blanks, and not the digit that stands for no flags. */
  predicate FlagNames(mode: Mode) {
    forall flag :: flag in mode ==> flag != "" && ' ' !in flag && flag != "0"
  }

  function FirstBlank(text: string): (i: nat)
    requires ' ' in text
    ensures i < |text| && text[i] == ' ' && ' ' !in text[..i]
  {
    if text[0] == ' ' then 0
    else
      var i := FirstBlank(text[1..]);
      assert text[..i + 1] == [text[0]] + text[1..][..i];
      i + 1
  }

  /** Flags with a bar between blanks after each but the last. */
  function Flags(text: string): seq<string> {
    if ' ' !in text then [text]
    else
      var i := FirstBlank(text);
      [text[..i]] + if i + 3 <= |text| then Flags(text[i + 3..]) else []
  }

  function ModeOf(text: string): Mode {
    if text == "0" then [] else Flags(text)
  }

  lemma FirstBlankAt(text: string, i: nat)
    requires i < |text| && text[i] == ' ' && ' ' !in text[..i]
    ensures ' ' in text && FirstBlank(text) == i
  {
    var j := FirstBlank(text);
    forall k | 0 <= k < i
      ensures text[k] != ' '
    {
      assert text[..i][k] == text[k];
    }
    forall k | 0 <= k < j
      ensures text[k] != ' '
    {
      assert text[..j][k] == text[k];
    }
  }

  lemma {:induction false} FlagsBack(mode: Mode)
    requires FlagNames(mode) && mode != []
    ensures Flags(Joined(mode)) == mode && Joined(mode) != "0"
  {
    var first := mode[0];
    assert first in mode;
    if |mode| == 1 {
      assert mode == [first];
    } else {
      var rest := mode[1..];
      var text := Joined(mode);
      assert text == first + (" | " + Joined(rest));
      assert text[|first|] == ' ' && text[..|first|] == first;
      FirstBlankAt(text, |first|);
      assert text[|first| + 3..] == Joined(rest);
      forall flag | flag in rest
        ensures flag in mode
      {
      }
      FlagsBack(rest);
      assert mode == [first] + rest;
      assert |text| > 1;
    }
  }

  /** Printed modes can be read back. */
  lemma ModeBack(mode: Mode)
    requires FlagNames(mode)
    ensures ModeOf(Joined(mode)) == mode
  {
    if mode != [] {
      FlagsBack(mode);
    }
  }

  // ----- statements

  /** The operation that a statement carries out, argument by argument. */
  function Decoded(st: Statement): Option<Operation> {
    match st
    case Call(f, args) =>
      if f == "do_create" && |args| == 2 then Some(Create(args[0], ModeOf(args[1])))
      else if f == "do_mkdir" && |args| == 2 then Some(MkDir(args[0], ModeOf(args[1])))
      else if f == "do_remove" && |args| == 1 then Some(Remove(args[0]))
      else if f == "do_hardlink" && |args| == 2 then Some(Hardlink(args[0], args[1]))
      else if f == "do_rename" && |args| == 2 then Some(Rename(args[0], args[1]))
      else if f == "do_symlink" && |args| == 2 then Some(MakeSymlink(args[0], args[1]))
      else None
    case Assign(variable, path) =>
      var des := DescriptorOf(variable);
      if des.None? then None else Some(Open(path, des.value))
    case Use(f, variable, numbers) =>
      var des := DescriptorOf(variable);
      if des.None? then None
      else if f == "do_close" && numbers == [] then Some(Close(des.value))
      else if f == "do_read" && |numbers| == 1 then Some(Read(des.value, numbers[0]))
      else if f == "do_write" && |numbers| == 2 then Some(Write(des.value, numbers[0], numbers[1]))
      else if f == "do_fsync" && numbers == [] then Some(FSync(des.value))
      else None
    case _ => None
  }

  predicate PrintableModes(op: Operation) {
    (op.Create? || op.MkDir?) ==> FlagNames(op.mode)
  }

  /** All callees are different, whatever their lengths. */
  lemma Callees()
    ensures "do_create"[3] == 'c' && "do_mkdir"[3] == 'm' && "do_remove"[3..5] == "re" && "do_hardlink"[3] == 'h'
    ensures "do_rename"[3..6] == "ren" && "do_remove"[3..6] == "rem" && "do_symlink"[3] == 's'
    ensures "do_close"[3] == 'c' && "do_read"[3] == 'r' && "do_write"[3] == 'w' && "do_fsync"[3] == 'f'
    ensures "do_rename" != "do_remove"
  {
    assert "do_rename"[5] == 'n' && "do_remove"[5] == 'm';
  }

  lemma CallBack(op: Operation)
    requires PrintableModes(op) && Encoded(op).Call?
    ensures Decoded(Encoded(op)) == Some(op)
  {
    Callees();
    match op
    case Create(_, mode) => ModeBack(mode);
    case MkDir(_, mode) => ModeBack(mode);
    case _ =>
  }

  lemma UseBack(op: Operation)
    requires Encoded(op).Use?
    ensures Decoded(Encoded(op)) == Some(op)
  {
    Callees();
    match op
    case Close(des) => DescriptorBack(des);
    case Read(des, _) => DescriptorBack(des);
    case Write(des, _, _) => DescriptorBack(des);
    case FSync(des) => DescriptorBack(des);
  }

  /** No operation loses or mixes up an argument. */
  lemma DecodedBack(op: Operation)
    requires PrintableModes(op)
    ensures Decoded(Encoded(op)) == Some(op)
  {
    match op
    case Open(_, des) => DescriptorBack(des);
    case Close(_) => UseBack(op);
    case Read(_, _) => UseBack(op);
    case Write(_, _, _) => UseBack(op);
    case FSync(_) => UseBack(op);
    case _ => CallBack(op);
  }

  // ----- whole workloads

  /** The statements between the beginning and the end of the test function. */
  function Inside(code: seq<Statement>): seq<Statement> {
    if |code| >= 4 && code[2] == Begin && code[|code| - 1] == End then code[3..|code| - 1] else []
  }

  function DecodedAll(code: seq<Statement>): Option<seq<Operation>> {
    if code == [] then Some([])
    else
      var rest := DecodedAll(code[1..]);
      var op := Decoded(code[0]);
      if rest.None? || op.None? then None else Some([op.value] + rest.value)
  }

  lemma {:induction false} BodyBack(ops: seq<Operation>)
    requires forall op :: op in ops ==> PrintableModes(op)
    ensures DecodedAll(Body(ops)) == Some(ops)
  {
    if ops != [] {
      assert Body(ops)[0] == Encoded(ops[0]) && Body(ops)[1..] == Body(ops[1..]);
      DecodedBack(ops[0]);
      BodyBack(ops[1..]);
      assert ops == [ops[0]] + ops[1..];
    }
  }

  /** From the code for a workload the workload can be read back, operation by operation and argument by argument. */
  lemma CodeBack(ops: seq<Operation>)
    requires forall op :: op in ops ==> PrintableModes(op)
    ensures DecodedAll(Inside(Code(ops))) == Some(ops)
    ensures Code(ops)[0] == IncludeExecutor && |Code(ops)| == |ops| + 4
  {
    var head := [IncludeExecutor, if Declared(ops) > 0 then Declare(Variables(Declared(ops))) else NoDescriptors, Begin];
    assert Code(ops) == head + Body(ops) + [End];
    assert Code(ops)[3..|Code(ops)| - 1] == Body(ops);
    BodyBack(ops);
  }
}

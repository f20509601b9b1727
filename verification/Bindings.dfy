/**
 Which Open a use belongs to when a workload is cut or extended (diffuzzer/src/abstract_fs/mutator.rs). Uses
 carry a number and only Opens are numbered anew, so a use may silently come to belong to another Open:
 exactly when.
 */
module Bindings {
  import opened Operations
  import opened Invariants
  import opened Discipline
  import opened Workloads

  /** The Open at position q is the one with number k when Opens are counted from zero. */
  predicate IsOpen(ops: seq<Operation>, k: nat, q: nat) {
    q < |ops| && ops[q].Open? && Opens(ops[..q]) == k
  }

  lemma OpensGrow(ops: seq<Operation>, q: nat, r: nat)
    requires q < r <= |ops|
    ensures Opens(ops[..q]) + (if ops[q].Open? then 1 else 0) <= Opens(ops[..r])
  {
    assert ops[..r] == ops[..q] + ([ops[q]] + ops[q + 1..r]);
    OpensConcat(ops[..q], [ops[q]] + ops[q + 1..r]);
    OpensCons(ops[q], ops[q + 1..r]);
  }

  lemma {:induction false} OpenExists(ops: seq<Operation>, k: nat) returns (q: nat)
    requires k < Opens(ops)
    ensures IsOpen(ops, k, q)
    decreases |ops|
  {
    var init := ops[..|ops| - 1];
    if k < Opens(init) {
      q := OpenExists(init, k);
      assert init[..q] == ops[..q];
    } else {
      q := |ops| - 1;
    }
  }

  /** In a recording every use has its Open before it. */
  lemma UseHasOpen(ops: seq<Operation>, j: nat) returns (q: nat)
    requires LifeCycle(ops) && j < |ops| && Used(ops[j]).Some?
    ensures q < j && IsOpen(ops, Used(ops[j]).value, q)
  {
    assert InTurn(ops[..j], ops[j]);
    q := OpenExists(ops[..j], Used(ops[j]).value);
    assert ops[..j][..q] == ops[..q];
  }

  /** And nowhere else. */
  lemma OpenBefore(ops: seq<Operation>, j: nat, q: nat)
    requires LifeCycle(ops) && j < |ops| && Used(ops[j]).Some? && IsOpen(ops, Used(ops[j]).value, q)
    ensures q < j
  {
    assert InTurn(ops[..j], ops[j]);
    if q > j {
      OpensGrow(ops, j, q);
    }
  }

  lemma {:induction false} OpensSame(a: seq<Operation>, b: seq<Operation>)
    requires SameNames(a, b)
    ensures Opens(a) == Opens(b)
    decreases |a|
  {
    if a != [] {
      OpensSame(a[..|a| - 1], b[..|b| - 1]);
    }
  }

  /** The numbers given to Opens do not matter for which Open is which. */
  lemma SameOpens(a: seq<Operation>, b: seq<Operation>, k: nat, q: nat)
    requires SameNames(a, b)
    ensures IsOpen(a, k, q) <==> IsOpen(b, k, q)
  {
    if q < |a| {
      OpensSame(a[..q], b[..q]);
    }
  }

  // ----- one operation out

  /** Where an operation is once the one at position i is gone. */
  function Moved(i: nat, x: nat): int {
    if x < i then x else x - 1
  }

  /** An Open keeps its number if what is gone came after it or was no Open. */
  lemma OpenWithout(ops: seq<Operation>, i: nat, k: nat, q: nat)
    requires i < |ops| && q != i && IsOpen(ops, k, q)
    ensures IsOpen(Without(ops, i), k, Moved(i, q)) <==> q < i || !ops[i].Open?
  {
    var rest := Without(ops, i);
    if q < i {
      assert rest[..q] == ops[..q];
    } else {
      assert rest[..q - 1] == ops[..i] + ops[i + 1..q];
      assert ops[..q] == ops[..i] + ([ops[i]] + ops[i + 1..q]);
      OpensConcat(ops[..i], ops[i + 1..q]);
      OpensConcat(ops[..i], [ops[i]] + ops[i + 1..q]);
      OpensCons(ops[i], ops[i + 1..q]);
      assert rest[q - 1] == ops[q];
    }
  }

  /** If the use at j belongs to the Open at q, it still does once the operation at i is gone. */
  predicate KeepsUse(ops: seq<Operation>, i: nat, j: nat, q: nat)
    requires i < |ops| && j < |ops|
  {
    Used(ops[j]).Some? && IsOpen(ops, Used(ops[j]).value, q) ==>
      q != i && IsOpen(Renumber(Without(ops, i)), Used(ops[j]).value, Moved(i, q))
  }

  /** Every use that is left belongs to the same Open as before. */
  predicate KeepsOpens(ops: seq<Operation>, i: nat)
    requires i < |ops|
  {
    forall j, q :: 0 <= j < |ops| && 0 <= q < |ops| && j != i ==> KeepsUse(ops, i, j, q)
  }

  /**
   Deleting an operation from a recording leaves every use with its Open if and only if it is no Open, or
   nothing that comes later uses its descriptor or one opened after it.
   */
  lemma DeletionKeeps(ops: seq<Operation>, i: nat)
    requires LifeCycle(ops) && i < |ops|
    ensures KeepsOpens(ops, i) <==>
              (ops[i].Open? ==> forall j :: i < j < |ops| && Used(ops[j]).Some? ==> Used(ops[j]).value < ops[i].des)
  {
    if ops[i].Open? && exists j :: i < j < |ops| && Used(ops[j]).Some? && Used(ops[j]).value >= ops[i].des {
      var j :| i < j < |ops| && Used(ops[j]).Some? && Used(ops[j]).value >= ops[i].des;
      LaterLost(ops, i, j);
    } else {
      forall j, q | 0 <= j < |ops| && 0 <= q < |ops| && j != i
        ensures KeepsUse(ops, i, j, q)
      {
        if Used(ops[j]).Some? && IsOpen(ops, Used(ops[j]).value, q) {
          OthersKept(ops, i, j, q);
        }
      }
    }
  }

  lemma LaterLost(ops: seq<Operation>, i: nat, j: nat)
    requires LifeCycle(ops) && i < j < |ops| && ops[i].Open? && Used(ops[j]).Some? && Used(ops[j]).value >= ops[i].des
    ensures !KeepsOpens(ops, i)
  {
    var q := UseHasOpen(ops, j);
    assert !KeepsUse(ops, i, j, q) by {
      LaterOpen(ops, i, j, q);
      if q != i {
        OpenWithout(ops, i, Used(ops[j]).value, q);
        RenumberSame(0, Without(ops, i));
        SameOpens(Renumber(Without(ops, i)), Without(ops, i), Used(ops[j]).value, Moved(i, q));
      }
    }
  }

  lemma LaterOpen(ops: seq<Operation>, i: nat, j: nat, q: nat)
    requires LifeCycle(ops) && i < j < |ops| && ops[i].Open? && Used(ops[j]).Some? && Used(ops[j]).value >= ops[i].des
    requires IsOpen(ops, Used(ops[j]).value, q)
    ensures q >= i
  {
    assert InTurn(ops[..i], ops[i]);
    if q < i {
      OpensGrow(ops, q, i);
    }
  }

  lemma OthersKept(ops: seq<Operation>, i: nat, j: nat, q: nat)
    requires LifeCycle(ops) && i < |ops| && j < |ops| && j != i && Used(ops[j]).Some? && IsOpen(ops, Used(ops[j]).value, q)
    requires ops[i].Open? && i < j ==> Used(ops[j]).value < ops[i].des
    ensures q != i && IsOpen(Renumber(Without(ops, i)), Used(ops[j]).value, Moved(i, q))
  {
    OpenBefore(ops, j, q);
    assert InTurn(ops[..i], ops[i]);
    if ops[i].Open? && i < q {
      OpensGrow(ops, i, q);
    }
    OpenWithout(ops, i, Used(ops[j]).value, q);
    RenumberSame(0, Without(ops, i));
    SameOpens(Renumber(Without(ops, i)), Without(ops, i), Used(ops[j]).value, Moved(i, q));
  }

  // ----- one operation in

  function With(before: seq<Operation>, op: Operation, after: seq<Operation>): seq<Operation> {
    before + [op] + after
  }

  /** If a use belongs to the Open at q, it still does once the operation is in. */
  predicate KeepsUseWith(before: seq<Operation>, op: Operation, after: seq<Operation>, use: Operation, q: nat) {
    Used(use).Some? && IsOpen(before + after, Used(use).value, q) ==>
      IsOpen(Renumber(With(before, op, after)), Used(use).value, if q < |before| then q else q + 1)
  }

  /** Every use that was there belongs to the same Open as before. */
  predicate KeepsOpensWith(before: seq<Operation>, op: Operation, after: seq<Operation>) {
    forall use, q :: use in before + after && 0 <= q < |before + after| ==> KeepsUseWith(before, op, after, use, q)
  }

  lemma OpenWith(before: seq<Operation>, op: Operation, after: seq<Operation>, k: nat, q: nat)
    requires IsOpen(before + after, k, q)
    ensures IsOpen(Renumber(With(before, op, after)), k, if q < |before| then q else q + 1) <==> q < |before| || !op.Open?
  {
    var all, i := With(before, op, after), |before|;
    var r := if q < i then q else q + 1;
    assert Without(all, i) == before + after;
    RenumberSame(0, all);
    SameOpens(Renumber(all), all, k, r);
    if q < i {
      assert all[..q] == (before + after)[..q];
    } else {
      assert all[..q + 1] == before + ([op] + after[..q - i]);
      assert (before + after)[..q] == before + after[..q - i];
      OpensConcat(before, [op] + after[..q - i]);
      OpensConcat(before, after[..q - i]);
      OpensCons(op, after[..q - i]);
    }
  }

  /**
   Inserting an operation leaves every use with its Open if and only if it is no Open, or nothing behind it
   uses a descriptor that is opened behind it.
   */
  lemma InsertionKeeps(before: seq<Operation>, op: Operation, after: seq<Operation>)
    requires LifeCycle(before + after)
    ensures KeepsOpensWith(before, op, after) <==>
              (op.Open? ==> forall j :: 0 <= j < |after| && Used(after[j]).Some? ==> Used(after[j]).value < Opens(before))
  {
    var ops := before + after;
    if op.Open? && exists j :: 0 <= j < |after| && Used(after[j]).Some? && Used(after[j]).value >= Opens(before) {
      var j :| 0 <= j < |after| && Used(after[j]).Some? && Used(after[j]).value >= Opens(before);
      LaterMoved(before, op, after, j);
    } else {
      forall use, q | use in ops && 0 <= q < |ops|
        ensures KeepsUseWith(before, op, after, use, q)
      {
        var j :| 0 <= j < |ops| && ops[j] == use;
        if Used(use).Some? && IsOpen(ops, Used(use).value, q) {
          EarlierKept(before, op, after, j, q);
        }
      }
    }
  }

  lemma EarlierKept(before: seq<Operation>, op: Operation, after: seq<Operation>, j: nat, q: nat)
    requires LifeCycle(before + after) && j < |before + after|
    requires Used((before + after)[j]).Some? && IsOpen(before + after, Used((before + after)[j]).value, q)
    requires op.Open? && |before| <= j ==> Used((before + after)[j]).value < Opens(before)
    ensures KeepsUseWith(before, op, after, (before + after)[j], q)
  {
    var ops := before + after;
    OpenBefore(ops, j, q);
    OpenWith(before, op, after, Used(ops[j]).value, q);
    assert ops[..|before|] == before;
    if q >= |before| {
      OpensUpTo(ops, |before|, q);
    }
  }

  lemma OpensUpTo(ops: seq<Operation>, i: nat, q: nat)
    requires i <= q <= |ops|
    ensures Opens(ops[..i]) <= Opens(ops[..q])
  {
    if i < q { OpensGrow(ops, i, q); }
  }

  lemma LaterMoved(before: seq<Operation>, op: Operation, after: seq<Operation>, j: nat)
    requires LifeCycle(before + after) && op.Open?
    requires j < |after| && Used(after[j]).Some? && Used(after[j]).value >= Opens(before)
    ensures !KeepsOpensWith(before, op, after)
  {
    var ops, i := before + after, |before| + j;
    assert ops[i] == after[j];
    var q := UseHasOpen(ops, i);
    NotEarlier(before, after, Used(after[j]).value, q);
    OpenWith(before, op, after, Used(after[j]).value, q);
    assert !KeepsUseWith(before, op, after, ops[i], q);
  }

  lemma NotEarlier(before: seq<Operation>, after: seq<Operation>, k: nat, q: nat)
    requires IsOpen(before + after, k, q) && k >= Opens(before)
    ensures q >= |before|
  {
    if q < |before| {
      assert (before + after)[..|before|] == before;
      OpensGrow(before + after, q, |before|);
    }
  }
}

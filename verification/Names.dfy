/**
 Fresh names (diffuzzer/src/abstract_fs/generator.rs and mutator.rs): a counter written in decimal, which
 skips the names a workload already uses.
 */
module Names {
  import opened Pathname

  function Digit(d: nat): char
    requires d < 10
  {
    "0123456789"[d]
  }

  function Decimal(n: nat): string {
    if n < 10 then [Digit(n)] else Decimal(n / 10) + [Digit(n % 10)]
  }

  lemma {:induction false} DecimalProper(n: nat)
    ensures Proper(Decimal(n))
  {
    if n >= 10 {
      DecimalProper(n / 10);
    }
  }

  lemma {:induction false} DecimalInjective(a: nat, b: nat)
    requires Decimal(a) == Decimal(b)
    ensures a == b
  {
    var x, y := Decimal(a), Decimal(b);
    if a >= 10 { DecimalProper(a / 10); }
    if b >= 10 { DecimalProper(b / 10); }
    if a >= 10 && b >= 10 {
      assert x[..|x| - 1] == Decimal(a / 10) && y[..|y| - 1] == Decimal(b / 10);
      DecimalInjective(a / 10, b / 10);
      assert x[|x| - 1] == Digit(a % 10) && y[|y| - 1] == Digit(b % 10);
    } else {
      assert x[0] == Digit(a) && y[0] == Digit(b);
    }
  }

  /** How many of the names used are still to come. */
  ghost function Ahead(used: set<string>, from: nat): set<string> {
    set n | n in used && forall k: nat :: k < from ==> n != Decimal(k)
  }

  class NameGen {
    var idx: nat
    const used: set<string>

    constructor (used: set<string>)
      ensures idx == 0 && this.used == used
    {
      idx := 0;
      this.used := used;
    }

    /** The next decimal that is not used. */
    method Next() returns (name: Name)
      modifies this
      ensures idx > old(idx) && name == Decimal(idx - 1) && name !in used && Proper(name)
      ensures forall i :: old(idx) <= i < idx - 1 ==> Decimal(i) in used
    {
      while true
        invariant idx >= old(idx) && forall i :: old(idx) <= i < idx ==> Decimal(i) in used
        decreases Ahead(used, idx)
      {
        name := Decimal(idx);
        ghost var before := idx;
        idx := idx + 1;
        if name !in used {
          break;
        }
        assert name in Ahead(used, before) by {
          forall k: nat | k < before
            ensures name != Decimal(k)
          {
            if name == Decimal(k) { DecimalInjective(k, before); }
          }
        }
        assert name !in Ahead(used, idx);
      }
      DecimalProper(idx - 1);
    }
  }
}

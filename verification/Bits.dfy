/** Shifts and bitwise or of natural numbers. */
module Bits {
  function Pow2(n: nat): (r: nat)
    ensures r > 0
  {
    if n == 0 then 1 else 2 * Pow2(n - 1)
  }

  /** Bitwise or of two natural numbers. */
  function Or(a: nat, b: nat): nat {
    if a == 0 && b == 0 then 0
    else 2 * Or(a / 2, b / 2) + if a % 2 == 1 || b % 2 == 1 then 1 else 0
  }

  function ShiftLeft(a: nat, n: nat): nat {
    a * Pow2(n)
  }

  lemma {:induction false} OrIsSum(a: nat, b: nat, n: nat)
    requires a < Pow2(n)
    ensures Or(a, ShiftLeft(b, n)) == a + ShiftLeft(b, n)
  {
    if n == 0 {
      OrZero(b);
    } else {
      var s := ShiftLeft(b, n);
      assert s == 2 * ShiftLeft(b, n - 1) by { Double(b, Pow2(n - 1)); }
      OrIsSum(a / 2, b, n - 1);
    }
  }

  lemma Double(b: nat, p: nat)
    ensures b * (2 * p) == 2 * (b * p)
  {
  }

  lemma {:induction false} OrZero(b: nat)
    ensures Or(0, b) == b
  {
    if b != 0 { OrZero(b / 2); }
  }

  lemma {:induction false} Pow2Adds(m: nat, n: nat)
    ensures Pow2(m + n) == Pow2(m) * Pow2(n)
  {
    if m != 0 {
      Pow2Adds(m - 1, n);
    }
  }
}

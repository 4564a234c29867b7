/** Bitwise operations on natural numbers, as C applies them to unsigned octets. */
module Bits {

  function Xor(a: nat, b: nat): nat
    decreases a + b
  {
    if a == 0 && b == 0 then 0 else (a + b) % 2 + 2 * Xor(a / 2, b / 2)
  }

  function Or(a: nat, b: nat): nat
    decreases a + b
  {
    if a == 0 && b == 0 then 0 else (if a % 2 + b % 2 > 0 then 1 else 0) + 2 * Or(a / 2, b / 2)
  }

  /** Bit `k` of `a`, the lowest being bit 0. */
  predicate Bit(a: nat, k: nat)
    decreases k
  {
    if k == 0 then a % 2 == 1 else Bit(a / 2, k - 1)
  }

  /** A bit is set in the one exactly when it differs between the two. */
  lemma {:induction false} XorBit(a: nat, b: nat, k: nat)
    ensures Bit(Xor(a, b), k) <==> Bit(a, k) != Bit(b, k)
    decreases k
  {
    XorUnfold(a, b);
    LowBit((a + b) % 2, Xor(a / 2, b / 2));
    if k == 0 {
      SumParity(a, b);
    } else {
      XorBit(a / 2, b / 2, k - 1);
    }
  }

  lemma SumParity(a: nat, b: nat)
    ensures (a + b) % 2 == 1 <==> (a % 2 == 1) != (b % 2 == 1)
  {
  }

  /** A bit is set in the one exactly when it is set in either of the two. */
  lemma {:induction false} OrBit(a: nat, b: nat, k: nat)
    ensures Bit(Or(a, b), k) <==> Bit(a, k) || Bit(b, k)
    decreases k
  {
    if a == 0 && b == 0 {
      NoBits(k);
    } else {
      LowBit(if a % 2 + b % 2 > 0 then 1 else 0, Or(a / 2, b / 2));
      if k > 0 {
        OrBit(a / 2, b / 2, k - 1);
      }
    }
  }

  lemma {:induction false} NoBits(k: nat)
    ensures !Bit(0, k)
  {
    if k > 0 {
      NoBits(k - 1);
    }
  }

  function Pow2(k: nat): (p: nat)
    ensures p > 0
  {
    if k == 0 then 1 else 2 * Pow2(k - 1)
  }

  lemma LowBit(r: nat, q: nat)
    requires r < 2
    ensures (r + 2 * q) / 2 == q && (r + 2 * q) % 2 == r
  {
  }

  /** Applying a mask twice removes it. */
  lemma {:induction false} XorTwice(a: nat, b: nat)
    ensures Xor(Xor(a, b), b) == a
    decreases a + b
  {
    if a > 0 || b > 0 {
      XorTwice(a / 2, b / 2);
      var r, q := (a + b) % 2, Xor(a / 2, b / 2);
      LowBit(r, q);
      XorUnfold(r + 2 * q, b);
      ParityTwice(a, b, q);
      LowBit(a % 2, a / 2);
    }
  }

  lemma ParityTwice(a: nat, b: nat, q: nat)
    ensures ((a + b) % 2 + 2 * q + b) % 2 == a % 2
  {
  }

  lemma XorUnfold(a: nat, b: nat)
    ensures Xor(a, b) == (a + b) % 2 + 2 * Xor(a / 2, b / 2)
  {
  }

  lemma {:induction false} XorBound(a: nat, b: nat, k: nat)
    requires a < Pow2(k) && b < Pow2(k)
    ensures Xor(a, b) < Pow2(k)
    decreases k
  {
    if k > 0 {
      XorBound(a / 2, b / 2, k - 1);
    }
  }

  /** Or-ing numbers without a common bit adds them. */
  lemma {:induction false} OrDisjoint(a: nat, b: nat, k: nat)
    requires a % Pow2(k) == 0 && b < Pow2(k)
    ensures Or(a, b) == a + b
    decreases k
  {
    if k == 0 {
      OrZero(a);
    } else {
      var p := Pow2(k - 1);
      var q := a / (2 * p);
      assert a == q * (2 * p) == 2 * (q * p);
      assert a / 2 == q * p;
      MultipleMod(q, p);
      OrDisjoint(a / 2, b / 2, k - 1);
    }
  }

  lemma OrShifted(high: nat, low: nat, k: nat)
    requires low < Pow2(k)
    ensures Or(high * Pow2(k), low) == high * Pow2(k) + low
  {
    MultipleMod(high, Pow2(k));
    OrDisjoint(high * Pow2(k), low, k);
  }

  lemma MultipleMod(q: nat, p: nat)
    requires p > 0
    ensures (q * p) % p == 0
  {
    var d := q - (q * p) / p;
    assert d * p == (q * p) % p;
    assert d >= 1 ==> d * p >= p;
    assert d <= -1 ==> d * p <= 0 - p;
  }

  lemma {:induction false} OrZero(a: nat)
    ensures Or(a, 0) == a
  {
    if a > 0 {
      OrZero(a / 2);
    }
  }
}

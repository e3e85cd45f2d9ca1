/** Bitwise operations on natural numbers of any size, as Python's integers have them,
    each tied to the bits it keeps. */
module Bits {
  predicate Bit(n: nat, k: nat) {
    if k == 0 then n % 2 == 1 else Bit(n / 2, k - 1)
  }

  function FromBit(b: bool): nat {
    if b then 1 else 0
  }

  function Or(a: nat, b: nat): nat {
    if a == 0 then b else if b == 0 then a
    else 2 * Or(a / 2, b / 2) + FromBit(a % 2 == 1 || b % 2 == 1)
  }

  function And(a: nat, b: nat): nat {
    if a == 0 || b == 0 then 0
    else 2 * And(a / 2, b / 2) + FromBit(a % 2 == 1 && b % 2 == 1)
  }

  /** `a & ~b` */
  function AndNot(a: nat, b: nat): nat {
    if a == 0 then 0 else if b == 0 then a
    else 2 * AndNot(a / 2, b / 2) + FromBit(a % 2 == 1 && b % 2 == 0)
  }

  lemma {:induction false} NoBits(k: nat)
    ensures !Bit(0, k)
  {
    if k > 0 { NoBits(k - 1); }
  }

  lemma {:induction false} OrBit(a: nat, b: nat, k: nat)
    ensures Bit(Or(a, b), k) <==> Bit(a, k) || Bit(b, k)
  {
    NoBits(k);
    if a != 0 && b != 0 && k > 0 {
      OrBit(a / 2, b / 2, k - 1);
    }
  }

  lemma {:induction false} AndBit(a: nat, b: nat, k: nat)
    ensures Bit(And(a, b), k) <==> Bit(a, k) && Bit(b, k)
  {
    NoBits(k);
    if a != 0 && b != 0 && k > 0 {
      AndBit(a / 2, b / 2, k - 1);
    }
  }

  lemma {:induction false} AndNotBit(a: nat, b: nat, k: nat)
    ensures Bit(AndNot(a, b), k) <==> Bit(a, k) && !Bit(b, k)
  {
    NoBits(k);
    if a != 0 && b != 0 && k > 0 {
      AndNotBit(a / 2, b / 2, k - 1);
    }
  }

  /** Numbers with the same bits are the same number. */
  lemma {:induction false} SameBits(a: nat, b: nat)
    requires forall k: nat :: Bit(a, k) <==> Bit(b, k)
    ensures a == b
    decreases a + b
  {
    if a + b > 0 {
      assert Bit(a, 0) <==> Bit(b, 0);
      forall k: nat ensures Bit(a / 2, k) <==> Bit(b / 2, k) {
        assert Bit(a, k + 1) <==> Bit(b, k + 1);
      }
      SameBits(a / 2, b / 2);
    }
  }

  /** Intersecting with `b` loses something exactly when `a & ~b` is not zero. */
  lemma {:induction false} AndSmaller(a: nat, b: nat)
    ensures And(a, b) <= a
    ensures And(a, b) < a <==> AndNot(a, b) != 0
  {
    if a != 0 && b != 0 {
      AndSmaller(a / 2, b / 2);
    }
  }

  function Pow2(k: nat): (p: nat)
    ensures p > 0
  {
    if k == 0 then 1 else 2 * Pow2(k - 1)
  }

  lemma {:induction false} PowerHasOneBit(k: nat, b: nat)
    ensures Bit(Pow2(k), b) <==> b == k
  {
    if k == 0 {
      if b > 0 { NoBits(b - 1); }
    } else if b > 0 {
      PowerHasOneBit(k - 1, b - 1);
    }
  }

  /** Testing a mask against one bit. */
  lemma {:induction false} AndPower(m: nat, k: nat)
    ensures And(m, Pow2(k)) != 0 <==> Bit(m, k)
  {
    NoBits(k);
    if m != 0 && k > 0 { AndPower(m / 2, k - 1); }
    if k == 0 && m != 0 { assert And(m / 2, 0) == 0; }
  }

  /** A number below a power of two has no bits from that power on. */
  lemma {:induction false} BelowPower(n: nat, k: nat, b: nat)
    requires n < Pow2(k) && k <= b
    ensures !Bit(n, b)
  {
    if k == 0 {
      NoBits(b);
    } else {
      BelowPower(n / 2, k - 1, b - 1);
    }
  }
}

/** Bit operations of `math/bits` on unsigned integers, as arithmetic on naturals. */
module Bits {
  import opened Basics

  /** The operator `>>`, one bit at a time. */
  function Shr(x: nat, i: nat): nat {
    if i == 0 then x else Shr(x / 2, i - 1)
  }

  /** Bit `i` of `x`: `(x >> i) & 1`. */
  function Bit(x: nat, i: nat): nat { Shr(x, i) % 2 }

  /** The operator `^`, bit by bit. */
  function Xor(a: nat, b: nat): nat {
    if a == 0 && b == 0 then 0
    else 2 * Xor(a / 2, b / 2) + (if a % 2 == b % 2 then 0 else 1)
  }

  /** `bits.Len64`: the number of bits needed to write `x`. */
  function Len(x: nat): nat {
    if x == 0 then 0 else 1 + Len(x / 2)
  }

  function PopCount(x: nat): nat {
    if x == 0 then 0 else x % 2 + PopCount(x / 2)
  }

  /** Quotient and remainder by a power of two are the only pair of their kind. */
  lemma {:induction false} ShrIsQuotient(x: nat, i: nat) returns (low: nat)
    ensures x == Pow2(i) * Shr(x, i) + low && low < Pow2(i)
  {
    if i == 0 {
      low := 0;
    } else {
      var half := ShrIsQuotient(x / 2, i - 1);
      low := 2 * half + x % 2;
    }
  }

  /** Equal numbers have xor zero, and only those. */
  lemma {:induction false} XorZero(a: nat, b: nat)
    ensures Xor(a, b) == 0 <==> a == b
  {
    if a != 0 || b != 0 {
      XorZero(a / 2, b / 2);
    }
  }

  /** The length of a xor drops by one when both numbers are halved. */
  lemma LenXorStep(a: nat, b: nat)
    requires a != b
    ensures Len(Xor(a, b)) == 1 + Len(Xor(a / 2, b / 2))
  {
    XorZero(a, b);
    assert Xor(a, b) / 2 == Xor(a / 2, b / 2);
  }

  /**
    `bits.Len64(a ^ b)` is the least number of low bits to drop
    before `a` and `b` become equal.
   */
  lemma {:induction false} LenXorIsLeastAgreement(a: nat, b: nat, j: nat)
    ensures Shr(a, j) == Shr(b, j) <==> Len(Xor(a, b)) <= j
    decreases j
  {
    XorZero(a, b);
    if a != b {
      LenXorStep(a, b);
      if j > 0 {
        LenXorIsLeastAgreement(a / 2, b / 2, j - 1);
      }
    }
  }
}

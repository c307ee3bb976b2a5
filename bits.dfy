/**
 * Exact unsigned arithmetic on natural numbers: powers of two, the bit at a
 * position, shifts, truncation to a width, and bitwise AND / OR, all defined
 * one binary digit at a time. Every fact that the
 * bit-mask model needs is stated per bit position and proved by induction.
 */
module Bits {

  /** 2 to the power n. */
  function Pow2(n: nat): (r: nat)
    ensures r >= 1
  {
    if n == 0 then 1 else 2 * Pow2(n - 1)
  }

  /** Bit i of x, counting from the least significant bit (bit 0). */
  predicate Bit(x: nat, i: nat)
  {
    if i == 0 then x % 2 == 1 else Bit(x / 2, i - 1)
  }

  /** x << m on an unbounded operand: x times 2^m, one doubling at a time. */
  function ShiftLeft(x: nat, m: nat): nat
  {
    if m == 0 then x else 2 * ShiftLeft(x, m - 1)
  }

  /** x >> m: x divided by 2^m, one halving at a time. */
  function ShiftRight(x: nat, m: nat): nat
  {
    if m == 0 then x else ShiftRight(x / 2, m - 1)
  }

  /** Conversion to a w-bit unsigned type: x modulo 2^w, kept bit by bit. */
  function Truncate(x: nat, w: nat): (r: nat)
    ensures r < Pow2(w)
  {
    if w == 0 then 0 else 2 * Truncate(x / 2, w - 1) + x % 2
  }

  /** Bitwise AND, one binary digit at a time. */
  function And(a: nat, b: nat): nat
    decreases a
  {
    if a == 0 || b == 0 then 0
    else 2 * And(a / 2, b / 2) + (if a % 2 == 1 && b % 2 == 1 then 1 else 0)
  }

  /** Bitwise inclusive OR, one binary digit at a time. */
  function Or(a: nat, b: nat): nat
    decreases a + b
  {
    if a == 0 then b
    else if b == 0 then a
    else 2 * Or(a / 2, b / 2) + (if a % 2 == 1 || b % 2 == 1 then 1 else 0)
  }

  /** 2^k - 1, the value whose k low bits are set. */
  function LowOnes(k: nat): (r: nat)
    ensures r < Pow2(k)
  {
    Pow2(k) - 1
  }

  /** The w-bit complement of a value below 2^w. */
  function Complement(w: nat, a: nat): (r: nat)
    requires a < Pow2(w)
    ensures r < Pow2(w) && r + a == LowOnes(w)
  {
    LowOnes(w) - a
  }

  // ---------------------------------------------------------------------
  // Powers of two

  lemma {:induction false} Pow2Monotonic(a: nat, b: nat)
    requires a <= b
    ensures Pow2(a) <= Pow2(b)
    decreases b
  {
    if a < b {
      Pow2Monotonic(a, b - 1);
    }
  }

  /** 1 << n is 2^n. */
  lemma {:induction false} ShiftLeftOne(n: nat)
    ensures ShiftLeft(1, n) == Pow2(n)
  {
    if n > 0 {
      ShiftLeftOne(n - 1);
    }
  }

  /** A right shift never increases a value. */
  lemma {:induction false} ShiftRightAtMost(x: nat, m: nat)
    ensures ShiftRight(x, m) <= x
  {
    if m > 0 {
      ShiftRightAtMost(x / 2, m - 1);
    }
  }

  // ---------------------------------------------------------------------
  // Bit-wise characterisations

  lemma ZeroBit(i: nat)
    ensures !Bit(0, i)
  {
  }

  /** Two values below 2^w with the same w low bits are equal. */
  lemma {:induction false} Extensional(a: nat, b: nat, w: nat)
    requires a < Pow2(w) && b < Pow2(w)
    requires forall i: nat :: i < w ==> Bit(a, i) == Bit(b, i)
    ensures a == b
  {
    if w > 0 {
      assert Bit(a, 0) == Bit(b, 0);
      forall i: nat | i < w - 1
        ensures Bit(a / 2, i) == Bit(b / 2, i)
      {
        assert Bit(a, i + 1) == Bit(b, i + 1);
      }
      Extensional(a / 2, b / 2, w - 1);
    }
  }

  /** A value below 2^w has no bit at position w or above. */
  lemma {:induction false} BitAboveWidth(a: nat, w: nat, i: nat)
    requires a < Pow2(w) && w <= i
    ensures !Bit(a, i)
  {
    if w == 0 {
      ZeroBit(i);
    } else {
      BitAboveWidth(a / 2, w - 1, i - 1);
    }
  }

  /** 2^n has exactly bit n set. */
  lemma {:induction false} Pow2Bit(n: nat, i: nat)
    ensures Bit(Pow2(n), i) == (i == n)
  {
    if n == 0 {
      if i > 0 {
        ZeroBit(i - 1);
      }
    } else if i > 0 {
      Pow2Bit(n - 1, i - 1);
    }
  }

  /** 2^k - 1 has exactly the k low bits set. */
  lemma {:induction false} LowOnesBit(k: nat, i: nat)
    ensures Bit(LowOnes(k), i) == (i < k)
  {
    if k == 0 {
      ZeroBit(i);
    } else {
      assert LowOnes(k) == 2 * LowOnes(k - 1) + 1;
      if i > 0 {
        LowOnesBit(k - 1, i - 1);
      }
    }
  }

  /** 2^k - 1 truncated to w bits is 2^min(k, w) - 1. */
  lemma TruncateLowOnes(k: nat, w: nat)
    ensures Truncate(LowOnes(k), w) == LowOnes(if k < w then k else w)
  {
    var j := if k < w then k else w;
    var a, b := Truncate(LowOnes(k), w), LowOnes(j);
    Pow2Monotonic(j, w);
    forall i: nat | i < w
      ensures Bit(a, i) == Bit(b, i)
    {
      TruncateBit(LowOnes(k), w, i);
      LowOnesBit(k, i);
      LowOnesBit(j, i);
    }
    Extensional(a, b, w);
  }

  /** The w-bit complement of 2^k - 1 has exactly the bits k..w-1 set. */
  lemma HighOnesBit(w: nat, k: nat, i: nat)
    requires k <= w && Pow2(k) <= Pow2(w)
    ensures Bit(Complement(w, LowOnes(k)), i) == (i < w && k <= i)
  {
    if i < w {
      ComplementBit(w, LowOnes(k), i);
      LowOnesBit(k, i);
    } else {
      BitAboveWidth(Complement(w, LowOnes(k)), w, i);
    }
  }

  /** The w-bit complement flips each of the w low bits. */
  lemma {:induction false} ComplementBit(w: nat, a: nat, i: nat)
    requires a < Pow2(w) && i < w
    ensures Bit(Complement(w, a), i) == !Bit(a, i)
  {
    var c := Complement(w, a);
    var p := Pow2(w - 1);
    assert c == 2 * (p - 1 - a / 2) + (1 - a % 2);
    if i > 0 {
      ComplementBit(w - 1, a / 2, i - 1);
    }
  }

  /** A w-bit value and its complement share no bit and together cover all w bits. */
  lemma ComplementPartition(w: nat, a: nat)
    requires a < Pow2(w)
    ensures And(Complement(w, a), a) == 0
    ensures Or(Complement(w, a), a) == LowOnes(w)
  {
    var c := Complement(w, a);
    AndBelow(c, a, w);
    OrBelow(c, a, w);
    forall i: nat | i < w
      ensures Bit(And(c, a), i) == Bit(0, i)
      ensures Bit(Or(c, a), i) == Bit(LowOnes(w), i)
    {
      ComplementBit(w, a, i);
      AndBit(c, a, i);
      OrBit(c, a, i);
      ZeroBit(i);
      LowOnesBit(w, i);
    }
    Extensional(And(c, a), 0, w);
    Extensional(Or(c, a), LowOnes(w), w);
  }

  /** Truncation to w bits keeps the w low bits and clears the rest. */
  lemma {:induction false} TruncateBit(x: nat, w: nat, i: nat)
    ensures Bit(Truncate(x, w), i) == (i < w && Bit(x, i))
  {
    if w == 0 {
      ZeroBit(i);
    } else if i > 0 {
      TruncateBit(x / 2, w - 1, i - 1);
    }
  }

  /** A left shift by m moves bit i - m up to bit i and clears the m low bits. */
  lemma {:induction false} ShiftLeftBit(x: nat, m: nat, i: nat)
    ensures Bit(ShiftLeft(x, m), i) == (m <= i && Bit(x, i - m))
  {
    if m > 0 && i > 0 {
      ShiftLeftBit(x, m - 1, i - 1);
    }
  }

  /** A right shift by m moves bit i + m down to bit i. */
  lemma {:induction false} ShiftRightBit(x: nat, m: nat, i: nat)
    ensures Bit(ShiftRight(x, m), i) == Bit(x, i + m)
  {
    if m > 0 {
      ShiftRightBit(x / 2, m - 1, i);
    }
  }

  /** Bit i of a AND b is set exactly when it is set in both. */
  lemma {:induction false} AndBit(a: nat, b: nat, i: nat)
    ensures Bit(And(a, b), i) == (Bit(a, i) && Bit(b, i))
    decreases a
  {
    if a == 0 || b == 0 {
      ZeroBit(i);
    } else if i > 0 {
      AndBit(a / 2, b / 2, i - 1);
    }
  }

  /** Bit i of a OR b is set exactly when it is set in either. */
  lemma {:induction false} OrBit(a: nat, b: nat, i: nat)
    ensures Bit(Or(a, b), i) == (Bit(a, i) || Bit(b, i))
    decreases a + b
  {
    if a == 0 {
      ZeroBit(i);
    } else if b == 0 {
      ZeroBit(i);
    } else if i > 0 {
      OrBit(a / 2, b / 2, i - 1);
    }
  }

  /** OR of two w-bit values is a w-bit value. */
  lemma {:induction false} OrBelow(a: nat, b: nat, w: nat)
    requires a < Pow2(w) && b < Pow2(w)
    ensures Or(a, b) < Pow2(w)
  {
    if w > 0 && a != 0 && b != 0 {
      OrBelow(a / 2, b / 2, w - 1);
    }
  }

  /** AND with a w-bit value is a w-bit value. */
  lemma {:induction false} AndBelow(a: nat, b: nat, w: nat)
    requires b < Pow2(w)
    ensures And(a, b) < Pow2(w)
    decreases a
  {
    if w > 0 && a != 0 && b != 0 {
      AndBelow(a / 2, b / 2, w - 1);
    }
  }
}

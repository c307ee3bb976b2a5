/**
 * The compile-time bit masks of cetlib/bit_manipulation.h (bit_size,
 * bit_number, right_bits, left_bits) and the run-time rotation circ_lshift.
 * A template argument U becomes a value of the datatype Unsigned, and a value
 * of type U is a natural number below 2^BitSize(U). Each template is first
 * defined for a type of w value bits (the functions ending in "At"), and the
 * version for U applies it to w = BitSize(U). Where the code and the evident
 * intent part, both are modelled: RightBitsAsWritten / RightBits,
 * LeftBitsAsWritten / LeftBits, and CircLShift / RotateLeft.
 */
module BitManipulation {

  import opened Bits
  import opened Wrappers

  /** The standard unsigned integer types, with the widths of the LP64 data model. */
  datatype Unsigned = UnsignedChar | UnsignedShort | UnsignedInt | UnsignedLong | UnsignedLongLong

  /** Every standard width is a power of two; this is its exponent. */
  function Log2BitSize(u: Unsigned): nat
  {
    match u
    case UnsignedChar => 3
    case UnsignedShort => 4
    case UnsignedInt => 5
    case UnsignedLong => 6
    case UnsignedLongLong => 6
  }

  /** bit_size<U>::value, the number of value bits (numeric_limits<U>::digits). */
  function BitSize(u: Unsigned): (r: nat)
    ensures 8 <= r <= 64
  {
    match u
    case UnsignedChar => 8
    case UnsignedShort => 16
    case UnsignedInt => 32
    case UnsignedLong => 64
    case UnsignedLongLong => 64
  }

  /** bit_size<U> is a power of two, 2^Log2BitSize(U). */
  lemma BitSizePow2(u: Unsigned)
    ensures BitSize(u) == Pow2(Log2BitSize(u))
  {
    Pow2Widths();
  }

  lemma Pow2Widths()
    ensures Pow2(3) == 8 && Pow2(4) == 16 && Pow2(5) == 32 && Pow2(6) == 64
  {
    assert Pow2(1) == 2 && Pow2(2) == 4;
  }

  /** The width of int, the type that narrower unsigned operands are promoted to. */
  const IntWidth: nat := 32

  /** ~0u, the largest unsigned int. */
  const UIntMax: nat := 0xFFFF_FFFF

  /**
   * ~0u has the IntWidth low bits set. The width is a parameter k equal to
   * IntWidth rather than the literal 32 so that the verifier does not expand
   * LowOnes(32) digit by digit wherever this lemma is in scope.
   */
  lemma UIntMaxOnes(k: nat)
    requires k == IntWidth
    ensures UIntMax == LowOnes(k)
  {
    assert Pow2(8) == 0x100;
    assert Pow2(16) == 0x1_0000;
    assert Pow2(24) == 0x100_0000;
    assert Pow2(32) == 0x1_0000_0000;
  }

  /** SIZE_MAX, the largest std::size_t (64 bits wide under LP64). */
  const SizeMax: nat := 0xFFFF_FFFF_FFFF_FFFF

  /** n + 1 computed in std::size_t, which wraps around to 0 at SIZE_MAX. */
  function SizeSucc(n: nat): nat
    requires n <= SizeMax
  {
    if n == SizeMax then 0 else n + 1
  }

  /** Width of the type an operand of type u becomes under the integral promotions. */
  function PromotedWidth(u: Unsigned): nat
  {
    if BitSize(u) < IntWidth then IntWidth else BitSize(u)
  }

  /** x is a value of type u. */
  predicate InRange(u: Unsigned, x: nat)
  {
    x < Pow2(BitSize(u))
  }

  /** U(-1): every value bit set. */
  function AllOnes(u: Unsigned): nat
  {
    LowOnes(BitSize(u))
  }

  lemma AllOnesBits(u: Unsigned, i: nat)
    ensures InRange(u, AllOnes(u)) && Bit(AllOnes(u), i) == (i < BitSize(u))
  {
    LowOnesBit(BitSize(u), i);
  }

  // ---------------------------------------------------------------------
  // bit_number

  /** bit_number for a type of w bits: 1 << n, or 0 when n is not one of its bits. */
  function BitNumberAt(w: nat, n: nat): (r: nat)
    ensures r < Pow2(w)
  {
    if n < w then
      ShiftLeftOne(n);
      Pow2Monotonic(n + 1, w);
      ShiftLeft(1, n)
    else 0
  }

  /** bit_number<U,n>::value: U(1u) << n, or 0 when n is not a bit of U. */
  function BitNumber(u: Unsigned, n: nat): (r: nat)
    ensures InRange(u, r)
  {
    BitNumberAt(BitSize(u), n)
  }

  lemma BitNumberAtBits(w: nat, n: nat, i: nat)
    ensures Bit(BitNumberAt(w, n), i) == (n < w && i == n)
  {
    if n < w {
      ShiftLeftOne(n);
      Pow2Bit(n, i);
    } else {
      ZeroBit(i);
    }
  }

  /** bit_number<U,n> is a value of U whose only set bit is bit n; no bit at all once n >= w. */
  lemma BitNumberBits(u: Unsigned, n: nat, i: nat)
    ensures InRange(u, BitNumber(u, n))
    ensures Bit(BitNumber(u, n), i) == (n < BitSize(u) && i == n)
  {
    BitNumberAtBits(BitSize(u), n, i);
  }

  // ---------------------------------------------------------------------
  // right_bits

  /**
   * right_bits as written, for a type of w bits: bit_number<n+1> - 1 while
   * n+1 < w, otherwise ~0u, which is an unsigned int and is then converted.
   * The index n is a std::size_t, so n+1 is 0 for n = SIZE_MAX, and the
   * first branch then gives bit_number<0> - 1 = 0.
   */
  function RightBitsAsWrittenAt(w: nat, n: nat): (r: nat)
    requires n <= SizeMax
    ensures r < Pow2(w)
  {
    var m := SizeSucc(n);
    if m < w then
      ShiftLeftOne(m);
      BitNumberAt(w, m) - 1
    else Truncate(UIntMax, w)
  }

  /** right_bits as intended, for a type of w bits: bits 0 to n set, all w bits once n+1 >= w. */
  function RightBitsAt(w: nat, n: nat): (r: nat)
    ensures r < Pow2(w)
  {
    if n + 1 < w then
      ShiftLeftOne(n + 1);
      BitNumberAt(w, n + 1) - 1
    else LowOnes(w)
  }

  /** right_bits<U,n>::value as the code computes it, for a std::size_t index n. */
  function RightBitsAsWritten(u: Unsigned, n: nat): (r: nat)
    requires n <= SizeMax
    ensures InRange(u, r)
  {
    RightBitsAsWrittenAt(BitSize(u), n)
  }

  /** right_bits<U,n> as intended. */
  function RightBits(u: Unsigned, n: nat): (r: nat)
    ensures InRange(u, r)
  {
    RightBitsAt(BitSize(u), n)
  }

  /**
   * right_bits as written is 2^(n+1) - 1 while n+1 < w, else 2^min(32, w) - 1;
   * it is 0 for n = SIZE_MAX.
   */
  lemma RightBitsAsWrittenAtValue(w: nat, n: nat)
    requires n <= SizeMax
    ensures RightBitsAsWrittenAt(w, n) ==
            LowOnes(if n == SizeMax then 0 else if n + 1 < w then n + 1 else if IntWidth < w then IntWidth else w)
  {
    var m := SizeSucc(n);
    if m < w {
      ShiftLeftOne(m);
    } else {
      var k := IntWidth;
      UIntMaxOnes(k);
      TruncateLowOnes(k, w);
    }
  }

  /** The intended right_bits is 2^(n+1) - 1 while n+1 < w, else 2^w - 1. */
  lemma RightBitsAtValue(w: nat, n: nat)
    ensures RightBitsAt(w, n) == LowOnes(if n + 1 < w then n + 1 else w)
  {
    if n + 1 < w {
      ShiftLeftOne(n + 1);
    }
  }

  lemma RightBitsAsWrittenAtBits(w: nat, n: nat, i: nat)
    requires n <= SizeMax
    ensures Bit(RightBitsAsWrittenAt(w, n), i) == (n < SizeMax && i < w && i <= n && (n + 1 < w || i < IntWidth))
  {
    RightBitsAsWrittenAtValue(w, n);
    LowOnesBit(if n == SizeMax then 0 else if n + 1 < w then n + 1 else if IntWidth < w then IntWidth else w, i);
  }

  lemma RightBitsAtBits(w: nat, n: nat, i: nat)
    ensures Bit(RightBitsAt(w, n), i) == (i <= n && i < w)
  {
    RightBitsAtValue(w, n);
    LowOnesBit(if n + 1 < w then n + 1 else w, i);
  }

  /**
   * right_bits<U,n> as written is a value of U whose set bits are 0..n, but
   * none from bit 32 up in the ~0u case, and none at all for n = SIZE_MAX.
   */
  lemma RightBitsAsWrittenBits(u: Unsigned, n: nat, i: nat)
    requires n <= SizeMax
    ensures InRange(u, RightBitsAsWritten(u, n))
    ensures Bit(RightBitsAsWritten(u, n), i) ==
            (n < SizeMax && i < BitSize(u) && i <= n && (n + 1 < BitSize(u) || i < IntWidth))
  {
    RightBitsAsWrittenAtBits(BitSize(u), n, i);
  }

  /** The intended right_bits<U,n> has exactly the bits 0..n of U set. */
  lemma RightBitsBits(u: Unsigned, n: nat, i: nat)
    ensures Bit(RightBits(u, n), i) == (i <= n && i < BitSize(u))
  {
    RightBitsAtBits(BitSize(u), n, i);
  }

  lemma RightBitsAtVersusIntended(w: nat, n: nat)
    requires n <= SizeMax
    ensures RightBitsAsWrittenAt(w, n) == RightBitsAt(w, n) <==>
            (n + 1 < w || w <= IntWidth) && (n < SizeMax || w == 0)
  {
    if n == SizeMax {
      if w != 0 {
        RightBitsAsWrittenAtBits(w, n, 0);
        RightBitsAtBits(w, n, 0);
      }
    } else if n + 1 >= w {
      var a, b := RightBitsAsWrittenAt(w, n), RightBitsAt(w, n);
      if w <= IntWidth {
        forall i: nat | i < w
          ensures Bit(a, i) == Bit(b, i)
        {
          RightBitsAsWrittenAtBits(w, n, i);
          RightBitsAtBits(w, n, i);
        }
        Extensional(a, b, w);
      } else {
        RightBitsAsWrittenAtBits(w, n, IntWidth);
        RightBitsAtBits(w, n, IntWidth);
      }
    }
  }

  /**
   * The code agrees with the intent exactly when the ~0u branch is not taken
   * or U is no wider than unsigned int, and n is not SIZE_MAX.
   */
  lemma RightBitsAsWrittenVersusIntended(u: Unsigned, n: nat)
    requires n <= SizeMax
    ensures RightBitsAsWritten(u, n) == RightBits(u, n) <==>
            (n + 1 < BitSize(u) || BitSize(u) <= IntWidth) && n < SizeMax
  {
    RightBitsAtVersusIntended(BitSize(u), n);
  }

  // ---------------------------------------------------------------------
  // left_bits

  /**
   * left_bits as intended, for a type of w bits: the complement of the
   * intended right_bits<w-n> while n <= w, all ones beyond.
   */
  function LeftBitsAt(w: nat, n: nat): (r: nat)
    ensures r < Pow2(w)
  {
    if n <= w then Complement(w, RightBitsAt(w, w - n)) else LowOnes(w)
  }

  /**
   * left_bits as the code computes it: the complement of the as-written
   * right_bits<w-n>, so it inherits the ~0u of that template. A width is
   * far below SIZE_MAX, so the index w-n never wraps.
   */
  function LeftBitsAsWrittenAt(w: nat, n: nat): (r: nat)
    requires w < SizeMax
    ensures r < Pow2(w)
  {
    if n <= w then Complement(w, RightBitsAsWrittenAt(w, w - n)) else LowOnes(w)
  }

  /** right_bits<U,SIZE_MAX> as written is 0, where every bit of U is meant to be set. */
  lemma RightBitsAsWrittenAtSizeMax(u: Unsigned)
    ensures RightBitsAsWritten(u, SizeMax) == 0
    ensures RightBits(u, SizeMax) == AllOnes(u)
  {
  }

  /** left_bits<U,n>::value over the intended right_bits, U(-1) once n > w. */
  function LeftBits(u: Unsigned, n: nat): (r: nat)
    ensures InRange(u, r)
  {
    LeftBitsAt(BitSize(u), n)
  }

  /** left_bits<U,n>::value as the code computes it. */
  function LeftBitsAsWritten(u: Unsigned, n: nat): (r: nat)
    ensures InRange(u, r)
  {
    LeftBitsAsWrittenAt(BitSize(u), n)
  }

  lemma LeftBitsAtBits(w: nat, n: nat, i: nat)
    ensures Bit(LeftBitsAt(w, n), i) == (i < w && w < i + n)
  {
    if n <= w {
      var k := if w - n + 1 < w then w - n + 1 else w;
      RightBitsAtValue(w, w - n);
      Pow2Monotonic(k, w);
      HighOnesBit(w, k, i);
    } else {
      LowOnesBit(w, i);
    }
  }

  lemma LeftBitsAsWrittenAtBits(w: nat, n: nat, i: nat)
    requires w < SizeMax
    ensures Bit(LeftBitsAsWrittenAt(w, n), i) == (i < w && (w < i + n || (n <= 1 && IntWidth <= i)))
  {
    if n <= w {
      var k := if w - n + 1 < w then w - n + 1 else if IntWidth < w then IntWidth else w;
      RightBitsAsWrittenAtValue(w, w - n);
      Pow2Monotonic(k, w);
      HighOnesBit(w, k, i);
    } else {
      LowOnesBit(w, i);
    }
  }

  /**
   * left_bits<U,n> sets the bits i with i + n > w: the n-1 highest bits for
   * 1 <= n <= w, none for n = 0, every bit for n > w.
   */
  lemma LeftBitsBits(u: Unsigned, n: nat, i: nat)
    ensures InRange(u, LeftBits(u, n))
    ensures Bit(LeftBits(u, n), i) == (i < BitSize(u) && BitSize(u) < i + n)
  {
    LeftBitsAtBits(BitSize(u), n, i);
  }

  /**
   * left_bits<U,n> as written sets the bits i with i + n > w and, when n <= 1,
   * also every bit from 32 up.
   */
  lemma LeftBitsAsWrittenBits(u: Unsigned, n: nat, i: nat)
    ensures InRange(u, LeftBitsAsWritten(u, n))
    ensures Bit(LeftBitsAsWritten(u, n), i) ==
            (i < BitSize(u) && (BitSize(u) < i + n || (n <= 1 && IntWidth <= i)))
  {
    LeftBitsAsWrittenAtBits(BitSize(u), n, i);
  }

  lemma LeftRightPartitionAt(w: nat, n: nat)
    requires n <= w
    ensures And(LeftBitsAt(w, n), RightBitsAt(w, w - n)) == 0
    ensures Or(LeftBitsAt(w, n), RightBitsAt(w, w - n)) == LowOnes(w)
  {
    ComplementPartition(w, RightBitsAt(w, w - n));
  }

  lemma LeftRightPartitionAsWrittenAt(w: nat, n: nat)
    requires n <= w < SizeMax
    ensures And(LeftBitsAsWrittenAt(w, n), RightBitsAsWrittenAt(w, w - n)) == 0
    ensures Or(LeftBitsAsWrittenAt(w, n), RightBitsAsWrittenAt(w, w - n)) == LowOnes(w)
  {
    ComplementPartition(w, RightBitsAsWrittenAt(w, w - n));
  }

  /** left_bits<U,n> and right_bits<U,w-n> split U: they AND to 0 and OR to all ones. */
  lemma LeftRightPartition(u: Unsigned, n: nat)
    requires n <= BitSize(u)
    ensures And(LeftBits(u, n), RightBits(u, BitSize(u) - n)) == 0
    ensures Or(LeftBits(u, n), RightBits(u, BitSize(u) - n)) == AllOnes(u)
  {
    LeftRightPartitionAt(BitSize(u), n);
  }

  /** The code's own left_bits<U,n> and right_bits<U,w-n> also split U, for every U. */
  lemma LeftRightPartitionAsWritten(u: Unsigned, n: nat)
    requires n <= BitSize(u)
    ensures And(LeftBitsAsWritten(u, n), RightBitsAsWritten(u, BitSize(u) - n)) == 0
    ensures Or(LeftBitsAsWritten(u, n), RightBitsAsWritten(u, BitSize(u) - n)) == AllOnes(u)
  {
    LeftRightPartitionAsWrittenAt(BitSize(u), n);
  }

  lemma LeftBitsAtVersusIntended(w: nat, n: nat)
    requires w < SizeMax
    ensures LeftBitsAsWrittenAt(w, n) == LeftBitsAt(w, n) <==> (1 < n || w <= IntWidth)
  {
    var a, b := LeftBitsAsWrittenAt(w, n), LeftBitsAt(w, n);
    if 1 < n || w <= IntWidth {
      forall i: nat | i < w
        ensures Bit(a, i) == Bit(b, i)
      {
        LeftBitsAsWrittenAtBits(w, n, i);
        LeftBitsAtBits(w, n, i);
      }
      Extensional(a, b, w);
    } else {
      LeftBitsAsWrittenAtBits(w, n, IntWidth);
      LeftBitsAtBits(w, n, IntWidth);
    }
  }

  /**
   * The code's left_bits agrees with the intended one exactly when n > 1 or
   * U is no wider than unsigned int.
   */
  lemma LeftBitsAsWrittenVersusIntended(u: Unsigned, n: nat)
    ensures LeftBitsAsWritten(u, n) == LeftBits(u, n) <==> (1 < n || BitSize(u) <= IntWidth)
  {
    LeftBitsAtVersusIntended(BitSize(u), n);
  }

  // ---------------------------------------------------------------------
  // circ_lshift

  /**
   * The return expression of circ_lshift for a type of w bits, once the
   * count m is below w: (X << m) | ((X >> (w-m)) & (w-1)), converted back to
   * w bits. X is first promoted to a type of p >= w bits: when p > w the
   * shift X << m cannot overflow, when p == w it wraps modulo 2^w. A right
   * shift by at least p is undefined behaviour, modelled as None.
   */
  function CircLShiftReducedAt(w: nat, p: nat, x: nat, m: nat): (r: Option<nat>)
    requires m < w
    ensures r.Some? ==> r.value < Pow2(w)
  {
    if w - m >= p then None
    else
      var shifted := if p == w then Truncate(ShiftLeft(x, m), w) else ShiftLeft(x, m);
      var wrapped := And(ShiftRight(x, w - m), w - 1);
      Some(Truncate(Or(shifted, wrapped), w))
  }

  /**
   * The reduced circ_lshift on U: X is promoted to int when U is narrower
   * than int (X << m then stays below 2^31), otherwise it keeps its type.
   */
  function CircLShiftReduced(u: Unsigned, x: nat, m: nat): (r: Option<nat>)
    requires InRange(u, x) && m < BitSize(u)
    ensures r.None? <==> (m == 0 && IntWidth <= BitSize(u))
    ensures r.Some? ==> InRange(u, r.value)
  {
    CircLShiftReducedAt(BitSize(u), PromotedWidth(u), x, m)
  }

  /**
   * circ_lshift(X, n): first n %= w, then the reduced shift expression. It is
   * undefined exactly for a whole turn on a type at least as wide as int, and
   * otherwise a value of U.
   */
  function CircLShift(u: Unsigned, x: nat, n: nat): (r: Option<nat>)
    requires InRange(u, x) && InRange(u, n)
    ensures r.None? <==> (n % BitSize(u) == 0 && IntWidth <= BitSize(u))
    ensures r.Some? ==> InRange(u, r.value)
  {
    CircLShiftReduced(u, x, n % BitSize(u))
  }

  /** Only the residue of the count modulo w matters. */
  lemma CircLShiftDependsOnResidue(u: Unsigned, x: nat, n: nat, n': nat)
    requires InRange(u, x) && InRange(u, n) && InRange(u, n')
    requires n % BitSize(u) == n' % BitSize(u)
    ensures CircLShift(u, x, n) == CircLShift(u, x, n')
  {
  }

  /** The bit-level reading of the shift expression, for any width w = 2^k. */
  lemma CircLShiftReducedAtBits(w: nat, k: nat, p: nat, x: nat, m: nat, i: nat)
    requires w == Pow2(k) && x < Pow2(w) && m < w && i < w
    requires CircLShiftReducedAt(w, p, x, m).Some?
    ensures Bit(CircLShiftReducedAt(w, p, x, m).value, i) ==
            if m <= i then Bit(x, i - m) else i < k && Bit(x, i + w - m)
  {
    var y := ShiftLeft(x, m);
    var shifted := if p == w then Truncate(y, w) else y;
    var hi := ShiftRight(x, w - m);
    var wrapped := And(hi, w - 1);
    TruncateBit(Or(shifted, wrapped), w, i);
    OrBit(shifted, wrapped, i);
    ShiftLeftBit(x, m, i);
    if p == w {
      TruncateBit(y, w, i);
    }
    AndBit(hi, w - 1, i);
    LowOnesBit(k, i);
    ShiftRightBit(x, w - m, i);
    if m <= i {
      BitAboveWidth(x, w, i + (w - m));
    }
  }

  /**
   * The bits of the reduced circ_lshift: bit i - m of X moves up to bit i,
   * but of the m bits wrapped around to the bottom only the Log2BitSize(u)
   * lowest survive the mask w - 1.
   */
  lemma CircLShiftReducedBits(u: Unsigned, x: nat, m: nat, i: nat)
    requires InRange(u, x) && m < BitSize(u) && CircLShiftReduced(u, x, m).Some?
    requires i < BitSize(u)
    ensures InRange(u, CircLShiftReduced(u, x, m).value)
    ensures Bit(CircLShiftReduced(u, x, m).value, i) ==
            if m <= i then Bit(x, i - m) else i < Log2BitSize(u) && Bit(x, i + BitSize(u) - m)
  {
    BitSizePow2(u);
    CircLShiftReducedAtBits(BitSize(u), Log2BitSize(u), PromotedWidth(u), x, m, i);
  }

  /** Rotation to the left by m < w for a type of w bits: (X << m) | (X >> (w - m)), and X for m = 0. */
  function RotateLeftReducedAt(w: nat, x: nat, m: nat): (r: nat)
    requires x < Pow2(w) && m < w
    ensures r < Pow2(w)
  {
    if m == 0 then x
    else
      ShiftRightAtMost(x, w - m);
      OrBelow(Truncate(ShiftLeft(x, m), w), ShiftRight(x, w - m), w);
      Or(Truncate(ShiftLeft(x, m), w), ShiftRight(x, w - m))
  }

  /** The intended rotation of a value of U by m < w. */
  function RotateLeftReduced(u: Unsigned, x: nat, m: nat): (r: nat)
    requires InRange(u, x) && m < BitSize(u)
    ensures InRange(u, r)
  {
    RotateLeftReducedAt(BitSize(u), x, m)
  }

  /** Rotation to the left by n % w, as circ_lshift is evidently meant to compute. */
  function RotateLeft(u: Unsigned, x: nat, n: nat): (r: nat)
    requires InRange(u, x) && InRange(u, n)
    ensures InRange(u, r)
  {
    RotateLeftReduced(u, x, n % BitSize(u))
  }

  /** A rotation by m keeps a w-bit value below 2^w and moves bit (i - m) mod w to bit i. */
  lemma RotateLeftReducedAtBits(w: nat, x: nat, m: nat, i: nat)
    requires x < Pow2(w) && m < w && i < w
    ensures RotateLeftReducedAt(w, x, m) < Pow2(w)
    ensures Bit(RotateLeftReducedAt(w, x, m), i) == if m <= i then Bit(x, i - m) else Bit(x, i + w - m)
  {
    if m != 0 {
      var hi, lo := Truncate(ShiftLeft(x, m), w), ShiftRight(x, w - m);
      OrBit(hi, lo, i);
      TruncateBit(ShiftLeft(x, m), w, i);
      ShiftLeftBit(x, m, i);
      ShiftRightBit(x, w - m, i);
      if m <= i {
        BitAboveWidth(x, w, i + (w - m));
      }
    }
  }

  /** A rotation by m keeps the value in U and moves bit (i - m) mod w to bit i. */
  lemma RotateLeftReducedBits(u: Unsigned, x: nat, m: nat, i: nat)
    requires InRange(u, x) && m < BitSize(u) && i < BitSize(u)
    ensures InRange(u, RotateLeftReduced(u, x, m))
    ensures Bit(RotateLeftReduced(u, x, m), i) ==
            if m <= i then Bit(x, i - m) else Bit(x, i + BitSize(u) - m)
  {
    RotateLeftReducedAtBits(BitSize(u), x, m, i);
  }

  /** For any width w and m < w, rotating by m and then by the rest of the turn is the identity. */
  lemma RotateLeftReducedAtInverse(w: nat, x: nat, m: nat)
    requires x < Pow2(w) && m < w
    ensures RotateLeftReducedAt(w, RotateLeftReducedAt(w, x, m), if m == 0 then 0 else w - m) == x
  {
    if m != 0 {
      var y := RotateLeftReducedAt(w, x, m);
      var z := RotateLeftReducedAt(w, y, w - m);
      RotateLeftReducedAtBits(w, x, m, 0);
      RotateLeftReducedAtBits(w, y, w - m, 0);
      forall i: nat | i < w
        ensures Bit(z, i) == Bit(x, i)
      {
        RotateLeftReducedAtBits(w, y, w - m, i);
        if w - m <= i {
          RotateLeftReducedAtBits(w, x, m, i - (w - m));
        } else {
          RotateLeftReducedAtBits(w, x, m, i + m);
        }
      }
      Extensional(z, x, w);
    }
  }

  /** Rotating by m and then by the rest of the turn gives back the original value. */
  lemma RotateLeftReducedInverse(u: Unsigned, x: nat, m: nat)
    requires InRange(u, x) && m < BitSize(u)
    ensures InRange(u, RotateLeftReduced(u, x, m))
    ensures RotateLeftReduced(u, RotateLeftReduced(u, x, m), if m == 0 then 0 else BitSize(u) - m) == x
  {
    RotateLeftReducedAtBits(BitSize(u), x, m, 0);
    RotateLeftReducedAtInverse(BitSize(u), x, m);
  }

  /** Where the wrapped part fits in the mask, the shift expression is the rotation, for w = 2^k. */
  lemma CircLShiftReducedAtIsRotation(w: nat, k: nat, p: nat, x: nat, m: nat)
    requires w == Pow2(k) && x < Pow2(w) && m < w && m <= k
    requires CircLShiftReducedAt(w, p, x, m).Some?
    ensures CircLShiftReducedAt(w, p, x, m) == Some(RotateLeftReducedAt(w, x, m))
  {
    var c := CircLShiftReducedAt(w, p, x, m).value;
    var r := RotateLeftReducedAt(w, x, m);
    RotateLeftReducedAtBits(w, x, m, 0);
    forall i: nat | i < w
      ensures Bit(c, i) == Bit(r, i)
    {
      CircLShiftReducedAtBits(w, k, p, x, m, i);
      RotateLeftReducedAtBits(w, x, m, i);
    }
    Extensional(c, r, w);
  }

  /**
   * Where the wrapped part fits in the mask (and the shift is defined),
   * circ_lshift does compute the rotation.
   */
  lemma CircLShiftReducedIsRotation(u: Unsigned, x: nat, m: nat)
    requires InRange(u, x) && m < BitSize(u) && CircLShiftReduced(u, x, m).Some?
    requires m <= Log2BitSize(u)
    ensures CircLShiftReduced(u, x, m) == Some(RotateLeftReduced(u, x, m))
  {
    BitSizePow2(u);
    CircLShiftReducedAtIsRotation(BitSize(u), Log2BitSize(u), PromotedWidth(u), x, m);
  }

  /**
   * For counts whose residue is at most Log2BitSize(u), circ_lshift is the
   * rotation wherever it is defined (the residue is not 0 on a type at least
   * as wide as int).
   */
  lemma CircLShiftIsRotationForShortWraps(u: Unsigned, x: nat, n: nat)
    requires InRange(u, x) && InRange(u, n)
    requires !(n % BitSize(u) == 0 && IntWidth <= BitSize(u))
    requires n % BitSize(u) <= Log2BitSize(u)
    ensures CircLShift(u, x, n) == Some(RotateLeft(u, x, n))
  {
    CircLShiftReducedIsRotation(u, x, n % BitSize(u));
  }

  /** For w = 2^k and k < m < w, the shift expression loses bit k of the all-ones value. */
  lemma CircLShiftReducedAtDropsBit(w: nat, k: nat, p: nat, m: nat)
    requires w == Pow2(k) && k < m < w
    requires CircLShiftReducedAt(w, p, LowOnes(w), m).Some?
    ensures CircLShiftReducedAt(w, p, LowOnes(w), m) != Some(RotateLeftReducedAt(w, LowOnes(w), m))
  {
    var x := LowOnes(w);
    CircLShiftReducedAtBits(w, k, p, x, m, k);
    RotateLeftReducedAtBits(w, x, m, k);
    LowOnesBit(w, k + w - m);
  }

  /**
   * Once more bits wrap around than the mask w - 1 keeps, circ_lshift loses
   * some of them: on the all-ones value it differs from the rotation.
   */
  lemma CircLShiftDropsWrappedBits(u: Unsigned, n: nat)
    requires InRange(u, n) && Log2BitSize(u) < n % BitSize(u)
    ensures CircLShift(u, AllOnes(u), n).Some?
    ensures CircLShift(u, AllOnes(u), n) != Some(RotateLeft(u, AllOnes(u), n))
  {
    BitSizePow2(u);
    CircLShiftReducedAtDropsBit(BitSize(u), Log2BitSize(u), PromotedWidth(u), n % BitSize(u));
  }
}

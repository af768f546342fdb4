/**
 * C `unsigned int` arithmetic, written out on naturals below 2^32.
 *
 * Bitwise AND and OR work bit by bit over the 32 bit positions; `>>` halves,
 * `<<` doubles and then keeps the low 32 bits, so bits shifted past bit 31 are
 * lost just as in C. Every definition recurses on a bit count and divides only
 * by 2, which keeps the proofs below in linear arithmetic.
 */
module Word32 {

  const WORD_BITS: nat := 32
  const WORD_MODULUS: nat := 0x1_0000_0000
  const ALL_ONES: nat := 0xffff_ffff

  /** The values of a C `unsigned int`. */
  type Word = x: nat | x < WORD_MODULUS

  /** 2^k. */
  function Pow2(k: nat): (r: nat)
    ensures 0 < r
  {
    if k == 0 then 1 else 2 * Pow2(k - 1)
  }

  /** x >> k on unbounded naturals. */
  function ShiftRight(x: nat, k: nat): nat
  {
    if k == 0 then x else ShiftRight(x / 2, k - 1)
  }

  /** x << k on unbounded naturals: no bit is lost. */
  function ShiftLeft(x: nat, k: nat): nat
  {
    if k == 0 then x else 2 * ShiftLeft(x, k - 1)
  }

  /** The low n bits of x, that is x mod 2^n. */
  function LowBits(x: nat, n: nat): nat
  {
    if n == 0 then 0 else 2 * LowBits(x / 2, n - 1) + x % 2
  }

  /** The low n bits of a & b. */
  function AndBits(a: nat, b: nat, n: nat): nat
  {
    if n == 0 then 0
    else 2 * AndBits(a / 2, b / 2, n - 1) + (if a % 2 == 1 && b % 2 == 1 then 1 else 0)
  }

  /** The low n bits of a | b. */
  function OrBits(a: nat, b: nat, n: nat): nat
  {
    if n == 0 then 0
    else 2 * OrBits(a / 2, b / 2, n - 1) + (if a % 2 == 1 || b % 2 == 1 then 1 else 0)
  }

  /** `a & b` */
  function And(a: Word, b: Word): Word
  {
    Pow2Word();
    BitwiseBounds(a, b, WORD_BITS);
    AndBits(a, b, WORD_BITS)
  }

  /** `a | b` */
  function Or(a: Word, b: Word): Word
  {
    Pow2Word();
    BitwiseBounds(a, b, WORD_BITS);
    OrBits(a, b, WORD_BITS)
  }

  /** `x * 2` */
  function Double(x: Word): Word
  {
    Pow2Word();
    LowBitsBound(2 * x, WORD_BITS);
    LowBits(2 * x, WORD_BITS)
  }

  /** `x >> k`; C defines it for shift counts below 32. */
  function Shr(x: Word, k: nat): Word
    requires k < WORD_BITS
  {
    ShiftRightShrinks(x, k);
    ShiftRight(x, k)
  }

  /** `x << k`; C defines it for shift counts below 32. */
  function Shl(x: Word, k: nat): Word
    requires k < WORD_BITS
  {
    Pow2Word();
    LowBitsBound(ShiftLeft(x, k), WORD_BITS);
    LowBits(ShiftLeft(x, k), WORD_BITS)
  }

  /** AND and OR of n bits have n bits. */
  lemma {:induction false} BitwiseBounds(a: nat, b: nat, n: nat)
    ensures AndBits(a, b, n) < Pow2(n) && OrBits(a, b, n) < Pow2(n)
  {
    if n > 0 {
      BitwiseBounds(a / 2, b / 2, n - 1);
    }
  }

  lemma {:induction false} ShiftRightShrinks(x: nat, k: nat)
    ensures ShiftRight(x, k) <= x
  {
    if k > 0 {
      ShiftRightShrinks(x / 2, k - 1);
    }
  }

  /** The low n bits are below 2^n and no more than the whole. */
  lemma {:induction false} LowBitsBound(x: nat, n: nat)
    ensures LowBits(x, n) < Pow2(n) && LowBits(x, n) <= x
  {
    if n > 0 {
      LowBitsBound(x / 2, n - 1);
    }
  }

  // ---------------------------------------------------------------------
  // Powers of two

  lemma {:induction false} Pow2Add(a: nat, b: nat)
    ensures Pow2(a + b) == Pow2(a) * Pow2(b)
  {
    if b > 0 {
      Pow2Add(a, b - 1);
    }
  }

  lemma Pow2Word()
    ensures Pow2(WORD_BITS) == WORD_MODULUS
  {
    Pow2Values();
  }

  /** The powers of two the MMU's layout uses. */
  lemma Pow2Values()
    ensures Pow2(12) == 0x1000 && Pow2(13) == 0x2000
    ensures Pow2(20) == 0x10_0000 && Pow2(32) == WORD_MODULUS
  {
    assert Pow2(4) == 0x10;
    Pow2Add(4, 4);
    Pow2Add(8, 4);
    assert Pow2(13) == 2 * Pow2(12);
    Pow2Add(12, 8);
    Pow2Add(20, 12);
  }

  lemma {:induction false} Pow2Monotone(a: nat, b: nat)
    requires a <= b
    ensures Pow2(a) <= Pow2(b)
  {
    if a < b {
      Pow2Monotone(a, b - 1);
    }
  }

  /** Shifting 1 left by k gives 2^k. */
  lemma {:induction false} ShiftLeftOne(k: nat)
    ensures ShiftLeft(1, k) == Pow2(k)
  {
    if k > 0 {
      ShiftLeftOne(k - 1);
    }
  }

  /** Shifting left by k multiplies by 2^k. */
  lemma {:induction false} ShiftLeftIsProduct(x: nat, k: nat)
    ensures ShiftLeft(x, k) == x * Pow2(k)
  {
    if k > 0 {
      ShiftLeftIsProduct(x, k - 1);
      DoubleProduct(x, Pow2(k - 1));
    }
  }

  lemma DoubleProduct(a: nat, b: nat)
    ensures a * (2 * b) == 2 * (a * b)
  {
  }

  // ---------------------------------------------------------------------
  // Shifts and low bits

  /** Every x is its high part shifted back up plus its low k bits. */
  lemma {:induction false} Decompose(x: nat, k: nat)
    ensures x == ShiftLeft(ShiftRight(x, k), k) + LowBits(x, k)
  {
    if k > 0 {
      Decompose(x / 2, k - 1);
    }
  }

  /** Shifting right undoes shifting left, whatever lies in the vacated low bits. */
  lemma {:induction false} ShiftRightOfShiftLeft(hi: nat, b: nat, k: nat)
    requires b < Pow2(k)
    ensures ShiftRight(ShiftLeft(hi, k) + b, k) == hi
    ensures LowBits(ShiftLeft(hi, k) + b, k) == b
  {
    if k > 0 {
      ShiftRightOfShiftLeft(hi, b / 2, k - 1);
    }
  }

  /** A number of n bits has n - k bits left after shifting right by k. */
  lemma {:induction false} ShiftRightBound(x: nat, k: nat, n: nat)
    requires k <= n && x < Pow2(n)
    ensures ShiftRight(x, k) < Pow2(n - k)
  {
    if k > 0 {
      ShiftRightBound(x / 2, k - 1, n - 1);
    }
  }

  /** A number of n - k bits has n bits after shifting left by k. */
  lemma {:induction false} ShiftLeftBound(x: nat, k: nat, n: nat)
    requires k <= n && x < Pow2(n - k)
    ensures ShiftLeft(x, k) < Pow2(n)
  {
    if k > 0 {
      ShiftLeftBound(x, k - 1, n - 1);
    }
  }

  /** Bits below k added to a number of n - k bits shifted left by k give a number of n bits. */
  lemma {:induction false} ShiftLeftPlusBound(x: nat, b: nat, k: nat, n: nat)
    requires k <= n && x < Pow2(n - k) && b < Pow2(k)
    ensures ShiftLeft(x, k) + b < Pow2(n)
  {
    if k > 0 {
      ShiftLeftPlusBound(x, b / 2, k - 1, n - 1);
    }
  }

  /** Taking the low n bits changes nothing in a number of n bits. */
  lemma {:induction false} LowBitsOfSmall(x: nat, n: nat)
    requires x < Pow2(n)
    ensures LowBits(x, n) == x
  {
    if n > 0 {
      LowBitsOfSmall(x / 2, n - 1);
    }
  }

  /** Taking the low n bits, then the low m <= n of those, is taking the low m bits. */
  lemma {:induction false} LowBitsOfLowBits(x: nat, m: nat, n: nat)
    requires m <= n
    ensures LowBits(LowBits(x, n), m) == LowBits(x, m)
  {
    if m > 0 {
      var l := LowBits(x, n);
      assert l == 2 * LowBits(x / 2, n - 1) + x % 2;
      assert l / 2 == LowBits(x / 2, n - 1) && l % 2 == x % 2;
      assert LowBits(l, m) == 2 * LowBits(l / 2, m - 1) + l % 2;
      LowBitsOfLowBits(x / 2, m - 1, n - 1);
    }
  }

  /** The low n bits of x << k are the low n - k bits of x, shifted by k. */
  lemma {:induction false} LowBitsOfShiftLeft(x: nat, k: nat, n: nat)
    requires k <= n
    ensures LowBits(ShiftLeft(x, k), n) == ShiftLeft(LowBits(x, n - k), k)
  {
    if k > 0 {
      var y := ShiftLeft(x, k - 1);
      assert ShiftLeft(x, k) == 2 * y;
      assert LowBits(2 * y, n) == 2 * LowBits(y, n - 1);
      LowBitsOfShiftLeft(x, k - 1, n - 1);
    }
  }

  /** Shifting all n one-bits right by k leaves n - k one-bits. */
  lemma {:induction false} ShiftRightOfOnes(k: nat, n: nat)
    requires k <= n
    ensures ShiftRight(Pow2(n) - 1, k) == Pow2(n - k) - 1
  {
    if k > 0 {
      ShiftRightOfOnes(k - 1, n - 1);
    }
  }

  /** a one-bits shifted left by k are the bits k .. a + k - 1. */
  lemma {:induction false} ShiftLeftOfOnes(a: nat, k: nat)
    ensures ShiftLeft(Pow2(a) - 1, k) == Pow2(a + k) - Pow2(k)
  {
    if k > 0 {
      ShiftLeftOfOnes(a, k - 1);
    }
  }

  // ---------------------------------------------------------------------
  // Masks

  /** ANDing with k low one-bits keeps the low k bits. */
  lemma {:induction false} AndLowMask(x: nat, k: nat, n: nat)
    requires k <= n
    ensures AndBits(x, Pow2(k) - 1, n) == LowBits(x, k)
  {
    if k == 0 {
      AndZero(x, n);
    } else {
      assert (Pow2(k) - 1) / 2 == Pow2(k - 1) - 1 && (Pow2(k) - 1) % 2 == 1;
      AndLowMask(x / 2, k - 1, n - 1);
    }
  }

  lemma {:induction false} AndZero(x: nat, n: nat)
    ensures AndBits(x, 0, n) == 0
  {
    if n > 0 {
      AndZero(x / 2, n - 1);
    }
  }

  /** ANDing with a mask shifted left by k is ANDing the high part, shifted back. */
  lemma {:induction false} AndShiftedMask(x: nat, m: nat, k: nat, n: nat)
    requires k <= n
    ensures AndBits(x, ShiftLeft(m, k), n) == ShiftLeft(AndBits(ShiftRight(x, k), m, n - k), k)
  {
    if k > 0 {
      ShiftLeftInner(m, k);
      ShiftLeftInner(AndBits(ShiftRight(x, k), m, n - k), k);
      AndShiftedMask(x / 2, m, k - 1, n - 1);
    }
  }

  lemma {:induction false} ShiftLeftInner(x: nat, k: nat)
    requires 0 < k
    ensures ShiftLeft(x, k) == ShiftLeft(2 * x, k - 1)
  {
    if k > 1 {
      ShiftLeftInner(x, k - 1);
    }
  }

  /** ORing with zero keeps the low n bits. */
  lemma {:induction false} OrZero(x: nat, n: nat)
    ensures OrBits(x, 0, n) == LowBits(x, n)
    ensures OrBits(0, x, n) == LowBits(x, n)
  {
    if n > 0 {
      OrZero(x / 2, n - 1);
    }
  }

  /**
   * ORing bits below k into a number whose bits below k are b leaves the
   * bits from k upwards alone.
   */
  lemma {:induction false} OrLowBits(hi: nat, b: nat, c: nat, k: nat, n: nat)
    requires k <= n && b < Pow2(k) && c < Pow2(k) && ShiftLeft(hi, k) < Pow2(n)
    ensures OrBits(ShiftLeft(hi, k) + b, c, n) == ShiftLeft(hi, k) + OrBits(b, c, k)
  {
    if k == 0 {
      OrZero(hi, n);
      LowBitsOfSmall(hi, n);
    } else {
      OrLowBits(hi, b / 2, c / 2, k - 1, n - 1);
    }
  }

  // ---------------------------------------------------------------------
  // Facts about the word operations

  /** `x << k` loses nothing when x has at most 32 - k bits. */
  lemma ShlNoWrap(x: Word, k: nat)
    requires k < WORD_BITS && x < Pow2(WORD_BITS - k)
    ensures Shl(x, k) == ShiftLeft(x, k)
  {
    Pow2Word();
    ShiftLeftBound(x, k, WORD_BITS);
    LowBitsOfSmall(ShiftLeft(x, k), WORD_BITS);
  }

  /** `0xffffffff >> k` is 32 - k one-bits. */
  lemma ShrAllOnes(k: nat)
    requires k < WORD_BITS
    ensures Shr(ALL_ONES, k) == Pow2(WORD_BITS - k) - 1
  {
    Pow2Word();
    ShiftRightOfOnes(k, WORD_BITS);
  }
}

/**
 * The address layout the MMU derives from the page size: how a 32-bit
 * virtual address splits into a virtual page number (VPN) and an offset
 * within the page, and how many page-table entries the address space needs.
 */
module Layout {
  import opened Word32

  /** The largest page size the program accepts. */
  const MAX_PAGE_SIZE: nat := 4096
  /** The largest address space, in bits. */
  const MAX_ADDRESS_SPACE_BITS: nat := 32
  /**
   * The largest table exponent for which the byte count
   * `number_of_ptes * PTE_SIZE` still fits a C `int`.
   */
  const MAX_TABLE_EXPONENT: int := 28

  /**
   * `(int)log2(n)`: the exponent of the highest power of two not above n.
   * For 1 <= n <= 4096 the floating-point logarithm truncates to exactly this.
   */
  function Log2(n: nat): (k: nat)
    requires 1 <= n
    ensures Pow2(k) <= n < 2 * Pow2(k)
  {
    if n == 1 then 0 else 1 + Log2(n / 2)
  }

  /** n is 1, 2, 4, 8, ... */
  predicate IsPowerOfTwo(n: nat)
  {
    n == 1 || (1 < n && n % 2 == 0 && IsPowerOfTwo(n / 2))
  }

  /** A power of two is exactly 2 to its logarithm, and nothing else is. */
  lemma {:induction false} PowerOfTwoLog2(n: nat)
    requires 1 <= n
    ensures IsPowerOfTwo(n) <==> Pow2(Log2(n)) == n
  {
    if 1 < n {
      PowerOfTwoLog2(n / 2);
    }
  }

  /** The logarithm of 2^k is k. */
  lemma {:induction false} Log2OfPow2(k: nat)
    ensures Log2(Pow2(k)) == k
  {
    if k > 0 {
      Log2OfPow2(k - 1);
    }
  }

  /** Below 2^b the logarithm is below b. */
  lemma {:induction false} Log2Bound(n: nat, b: nat)
    requires 1 <= n < Pow2(b)
    ensures Log2(n) < b
  {
    if 1 < n {
      Log2Bound(n / 2, b - 1);
    }
  }

  /** Every accepted page size has a logarithm of at most 12. */
  lemma Log2OfPageSize(ps: nat)
    requires 1 <= ps <= MAX_PAGE_SIZE
    ensures Log2(ps) <= 12
  {
    Pow2Values();
    Log2Bound(ps, 13);
  }

  /** `(0xffffffff >> k) << k`: the VPN mask. */
  function VpnMask(k: nat): Word
    requires k < WORD_BITS
  {
    Shl(Shr(ALL_ONES, k), k)
  }

  /**
   * `0xffffffff >> (32 - k)`: the offset mask. For k == 0 the C shift count
   * is 32, which C leaves undefined; the mask of a one-byte page is 0.
   */
  function OffsetMask(k: nat): Word
    requires k < WORD_BITS
  {
    if k == 0 then 0 else Shr(ALL_ONES, WORD_BITS - k)
  }

  /** The VPN mask is the bits k..31 and the offset mask the bits 0..k-1. */
  lemma MaskValues(k: nat)
    requires k < WORD_BITS
    ensures VpnMask(k) == ShiftLeft(Pow2(WORD_BITS - k) - 1, k) == WORD_MODULUS - Pow2(k)
    ensures OffsetMask(k) == Pow2(k) - 1
  {
    Pow2Word();
    ShrAllOnes(k);
    ShiftLeftOfOnes(WORD_BITS - k, k);
    Pow2Monotone(WORD_BITS - k, WORD_BITS);
    ShlNoWrap(Pow2(WORD_BITS - k) - 1, k);
    if 0 < k {
      ShrAllOnes(WORD_BITS - k);
    }
  }

  /** The two masks share no bit and together cover the whole word. */
  lemma MasksPartition(k: nat)
    requires k < WORD_BITS
    ensures And(VpnMask(k), OffsetMask(k)) == 0
    ensures Or(VpnMask(k), OffsetMask(k)) == ALL_ONES
  {
    Pow2Word();
    var hi := Pow2(WORD_BITS - k) - 1;
    var low := Pow2(k) - 1;
    calc {
      And(VpnMask(k), OffsetMask(k));
      AndBits(VpnMask(k), OffsetMask(k), WORD_BITS);
      { MaskValues(k); }
      AndBits(VpnMask(k), low, WORD_BITS);
      { AndLowMask(VpnMask(k), k, WORD_BITS); }
      LowBits(VpnMask(k), k);
      { MaskValues(k); }
      LowBits(ShiftLeft(hi, k) + 0, k);
      { ShiftRightOfShiftLeft(hi, 0, k); }
      0;
    }
    calc {
      Or(VpnMask(k), OffsetMask(k));
      OrBits(VpnMask(k), OffsetMask(k), WORD_BITS);
      { MaskValues(k); }
      OrBits(ShiftLeft(hi, k) + 0, low, WORD_BITS);
      { MaskValues(k); Pow2Monotone(k, WORD_BITS); OrLowBits(hi, 0, low, k, WORD_BITS); }
      ShiftLeft(hi, k) + OrBits(0, low, k);
      { OrZero(low, k); LowBitsOfSmall(low, k); }
      ShiftLeft(hi, k) + low;
      { MaskValues(k); }
      ALL_ONES;
    }
  }

  /** Masking a virtual address with the VPN mask clears its low k bits. */
  lemma PagePart(va: Word, k: nat)
    requires k < WORD_BITS
    ensures And(va, VpnMask(k)) == ShiftLeft(ShiftRight(va, k), k)
  {
    Pow2Word();
    var m := Pow2(WORD_BITS - k) - 1;
    var vpn := ShiftRight(va, k);
    calc {
      And(va, VpnMask(k));
      AndBits(va, VpnMask(k), WORD_BITS);
      { MaskValues(k); }
      AndBits(va, ShiftLeft(m, k), WORD_BITS);
      { AndShiftedMask(va, m, k, WORD_BITS); }
      ShiftLeft(AndBits(vpn, m, WORD_BITS - k), k);
      { AndLowMask(vpn, WORD_BITS - k, WORD_BITS - k); }
      ShiftLeft(LowBits(vpn, WORD_BITS - k), k);
      { ShiftRightBound(va, k, WORD_BITS); LowBitsOfSmall(vpn, WORD_BITS - k); }
      ShiftLeft(vpn, k);
    }
  }

  /** Masking a virtual address with the offset mask keeps its low k bits. */
  lemma OffsetPart(va: Word, k: nat)
    requires k < WORD_BITS
    ensures And(va, OffsetMask(k)) == LowBits(va, k)
  {
    Pow2Word();
    MaskValues(k);
    AndLowMask(va, k, WORD_BITS);
  }

  /**
   * Masking a virtual address keeps its page part (the address with its low
   * k bits cleared) and its offset part (the low k bits), and the two
   * together give the address back.
   */
  lemma AddressSplit(va: Word, k: nat)
    requires k < WORD_BITS
    ensures And(va, VpnMask(k)) == ShiftLeft(ShiftRight(va, k), k)
    ensures And(va, OffsetMask(k)) == LowBits(va, k)
    ensures Or(And(va, VpnMask(k)), And(va, OffsetMask(k))) == va
  {
    Pow2Word();
    PagePart(va, k);
    OffsetPart(va, k);
    var vpn := ShiftRight(va, k);
    var offset := LowBits(va, k);
    LowBitsBound(va, k);
    Decompose(va, k);
    OrLowBits(vpn, 0, offset, k, WORD_BITS);
    OrZero(offset, k);
    LowBitsOfSmall(offset, k);
  }

  /** `(va & VPN_MASK) >> k` is the address shifted right by k. */
  lemma VpnOfAddress(va: Word, k: nat)
    requires k < WORD_BITS
    ensures Shr(And(va, VpnMask(k)), k) == ShiftRight(va, k)
  {
    AddressSplit(va, k);
    ShiftRightOfShiftLeft(ShiftRight(va, k), 0, k);
  }

  /** The page size is a power of two and the offset mask is one less. */
  lemma OffsetMaskOfPageSize(ps: nat)
    requires 1 <= ps <= MAX_PAGE_SIZE && IsPowerOfTwo(ps)
    ensures Log2(ps) <= 12 && OffsetMask(Log2(ps)) == ps - 1
  {
    Log2OfPageSize(ps);
    PowerOfTwoLog2(ps);
    MaskValues(Log2(ps));
  }

  /**
   * `(int)pow(2, asb - log2(ps))`: a negative exponent gives a fraction,
   * which the conversion to `int` truncates to 0.
   */
  function NumberOfPtes(asb: int, ps: nat): (n: nat)
    requires 1 <= ps
  {
    var e := asb - Log2(ps);
    if e < 0 then 0 else Pow2(e)
  }

  /**
   * The inputs the program accepts (1..32 address bits, pages of 1..4096
   * bytes), restricted to tables whose size in bytes fits a C `int`.
   */
  predicate ValidGeometry(asb: int, ps: nat)
  {
    1 <= asb <= MAX_ADDRESS_SPACE_BITS && 1 <= ps <= MAX_PAGE_SIZE
    && asb - Log2(ps) <= MAX_TABLE_EXPONENT
  }

  /** The table has one entry per page: entries times page size is the address space. */
  lemma TableCoversAddressSpace(asb: nat, ps: nat)
    requires ValidGeometry(asb, ps) && IsPowerOfTwo(ps) && Log2(ps) <= asb
    ensures NumberOfPtes(asb, ps) * ps == Pow2(asb)
  {
    var k := Log2(ps);
    var n := NumberOfPtes(asb, ps);
    assert n == Pow2(asb - k);
    assert ps == Pow2(k) by {
      PowerOfTwoLog2(ps);
    }
    Pow2Add(asb - k, k);
  }

  /** The table has at most 2^28 entries, so every index of its first half doubles without wrapping. */
  lemma TableBound(asb: int, ps: nat)
    requires ValidGeometry(asb, ps)
    ensures NumberOfPtes(asb, ps) <= 0x1000_0000
  {
    Pow2Word();
    Pow2Add(28, 4);
    var e := asb - Log2(ps);
    if 0 <= e {
      Pow2Monotone(e, 28);
    }
  }

  /** Every address within the address space has a VPN inside the table. */
  lemma VpnInTable(asb: nat, ps: nat, va: Word)
    requires ValidGeometry(asb, ps) && Log2(ps) <= asb && va < Pow2(asb)
    ensures ShiftRight(va, Log2(ps)) < NumberOfPtes(asb, ps)
  {
    ShiftRightBound(va, Log2(ps), asb);
  }

  /** With a 32-bit address space every virtual address has its PTE. */
  lemma FullAddressSpaceInTable(ps: nat, va: Word)
    requires ValidGeometry(32, ps)
    ensures ShiftRight(va, Log2(ps)) < NumberOfPtes(32, ps)
  {
    Pow2Word();
    Log2OfPageSize(ps);
    VpnInTable(32, ps, va);
  }
}

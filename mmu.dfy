/**
 * The software-managed MMU: the four layout registers, the page-table base
 * register (PTBR) and the operations that set them up and translate a
 * virtual address through the single-level page table.
 */
module SoftwareMmu {
  import opened Word32
  import opened Layout
  import opened PageTableEntry

  const SUCCESS: int := 0
  const NOT_VALID: int := -1
  const NOT_ACCESSIBLE: int := -2
  /** The VPN lies beyond the end of the page table. */
  const OUT_OF_RANGE: int := -3
  /** The largest value of a C `int`. */
  const INT_MAX: int := 0x7fff_ffff

  /** What a translation ends in. */
  datatype Outcome = Success(pa: Word) | NotValid | NotAccessible | OutOfRange

  /** The status code the translation returns for an outcome. */
  function StatusCode(o: Outcome): int
  {
    match o
    case Success(_) => SUCCESS
    case NotValid => NOT_VALID
    case NotAccessible => NOT_ACCESSIBLE
    case OutOfRange => OUT_OF_RANGE
  }

  /** `(va & VPN_MASK) >> SHIFT` */
  function VirtualPageNumber(vpnMask: Word, shift: Word, va: Word): Word
    requires shift < WORD_BITS
  {
    Shr(And(va, vpnMask), shift)
  }

  /**
   * Translation of va with the given layout registers and table: fetch the
   * PTE of the VPN, fault if it is not valid, then if it is not accessible,
   * and otherwise join the frame number and the offset.
   */
  function Translation(vpnMask: Word, shift: Word, pfnShift: Word, offsetMask: Word,
                       table: seq<Word>, va: Word): Outcome
    requires shift < WORD_BITS && pfnShift < WORD_BITS
  {
    var vpn := VirtualPageNumber(vpnMask, shift, va);
    if |table| <= vpn then OutOfRange
    else
      var pte := DecodePte(table[vpn]);
      if !pte.valid then NotValid
      else if !pte.access then NotAccessible
      else Success(Or(Shl(pte.pfn, pfnShift), And(va, offsetMask)))
  }

  /** A table of n zero entries. */
  function ZeroTable(n: nat): (t: seq<Word>)
    ensures |t| == n
  {
    seq(n, _ => 0)
  }

  /** before with its first half entries replaced by the filled entries. */
  function FillTable(before: seq<Word>, half: nat): (after: seq<Word>)
  {
    seq(|before|, j requires 0 <= j < |before| => if j < half then FilledEntry(j) else before[j])
  }

  /** The table after allocation and initialisation. */
  function InitialTable(asb: int, ps: nat): seq<Word>
    requires 1 <= ps
  {
    var n := NumberOfPtes(asb, ps);
    FillTable(ZeroTable(n), n / 2)
  }

  class Mmu {
    /** The page table, null until it is allocated. */
    var ptbr: array?<Word>
    var vpnMask: Word
    var shift: Word
    var pfnShift: Word
    var offsetMask: Word

    /** The registers start out zero and there is no table. */
    constructor ()
      ensures ptbr == null && vpnMask == 0 && shift == 0 && pfnShift == 0 && offsetMask == 0
    {
      ptbr := null;
      vpnMask := 0;
      shift := 0;
      pfnShift := 0;
      offsetMask := 0;
    }

    /** Sets the layout registers from the page size. */
    method InitMmuVariables(asb: int, ps: nat)
      requires 1 <= ps <= MAX_PAGE_SIZE
      modifies this
      ensures Log2(ps) <= 12
      ensures vpnMask == VpnMask(Log2(ps)) && offsetMask == OffsetMask(Log2(ps))
      ensures shift == Log2(ps) && pfnShift == shift
      ensures And(vpnMask, offsetMask) == 0 && Or(vpnMask, offsetMask) == ALL_ONES
      ensures IsPowerOfTwo(ps) ==> offsetMask == ps - 1
      ensures ptbr == old(ptbr)
    {
      Log2OfPageSize(ps);
      vpnMask := VpnMask(Log2(ps));
      shift := Log2(ps);
      pfnShift := shift;
      offsetMask := OffsetMask(Log2(ps));
      MasksPartition(Log2(ps));
      if IsPowerOfTwo(ps) {
        OffsetMaskOfPageSize(ps);
      }
    }

    /** Allocates a zero-filled table with one entry per virtual page. */
    method AllocPageTable(asb: int, ps: nat)
      requires ValidGeometry(asb, ps)
      modifies this
      ensures ptbr != null && fresh(ptbr)
      ensures ptbr[..] == ZeroTable(NumberOfPtes(asb, ps))
      ensures vpnMask == old(vpnMask) && shift == old(shift)
      ensures pfnShift == old(pfnShift) && offsetMask == old(offsetMask)
    {
      var numberOfPtes := NumberOfPtes(asb, ps);
      var table := new Word[numberOfPtes](_ => 0);
      ptbr := table;
    }

    /**
     * Fills the first half of the table: entry i gets frame 2 * i, the valid
     * bit, and the access bit unless i is a multiple of 4. The rest of the
     * table is left as it was.
     */
    method InitPageTable(asb: int, ps: nat)
      requires ValidGeometry(asb, ps)
      requires ptbr != null && NumberOfPtes(asb, ps) / 2 <= ptbr.Length
      modifies ptbr
      ensures ptbr[..] == FillTable(old(ptbr[..]), NumberOfPtes(asb, ps) / 2)
    {
      var numberOfPtes := NumberOfPtes(asb, ps);
      TableBound(asb, ps);
      Pow2Word();
      var i: nat := 0;
      while i < numberOfPtes / 2
        invariant i <= numberOfPtes / 2
        invariant forall j :: 0 <= j < i ==> ptbr[j] == FilledEntry(j)
        invariant forall j :: i <= j < ptbr.Length ==> ptbr[j] == old(ptbr[j])
      {
        ptbr[i] := Shl(Double(i), PFN_POSITION);
        if i % 4 == 0 {
          ptbr[i] := Or(ptbr[i], VALID_MASK);
        } else {
          ptbr[i] := Or(Or(ptbr[i], VALID_MASK), ACCESS_MASK);
        }
        assert ptbr[i] == FilledEntry(i) by {
          FillExpressionIsFilledEntry(i);
        }
        i := i + 1;
      }
      assert forall j :: 0 <= j < ptbr.Length ==>
        ptbr[j] == FillTable(old(ptbr[..]), numberOfPtes / 2)[j];
    }

    /**
     * Translates va. On success the status is SUCCESS and the physical
     * address is returned; on a fault the status says which check failed and
     * the physical address passed in comes back unchanged. The table is only
     * read.
     */
    method Translate(va: Word, physicalAddress: Word) returns (status: int, pa: Word)
      requires ptbr != null && shift < WORD_BITS && pfnShift < WORD_BITS
      ensures var o := Translation(vpnMask, shift, pfnShift, offsetMask, ptbr[..], va);
              status == StatusCode(o) && pa == (if o.Success? then o.pa else physicalAddress)
    {
      pa := physicalAddress;
      var vpn := Shr(And(va, vpnMask), shift);
      if ptbr.Length <= vpn {
        return OUT_OF_RANGE, pa;
      }
      var pte := ptbr[vpn];
      var pfn := Shr(pte, PFN_POSITION);
      var valid := And(pte, VALID_MASK);
      var access := Shr(And(pte, ACCESS_MASK), 1);
      if valid == 0 {
        status := NOT_VALID;
      } else if access == 0 {
        status := NOT_ACCESSIBLE;
      } else {
        var offset := And(va, offsetMask);
        pa := Or(Shl(pfn, pfnShift), offset);
        status := SUCCESS;
      }
    }
  }

  /**
   * The start-up sequence: allocate the table, fill it, then set the layout
   * registers.
   */
  method StartUp(asb: int, ps: nat) returns (mmu: Mmu)
    requires ValidGeometry(asb, ps)
    ensures fresh(mmu) && mmu.ptbr != null
    ensures mmu.ptbr[..] == InitialTable(asb, ps)
    ensures Log2(ps) <= 12 && mmu.vpnMask == VpnMask(Log2(ps)) && mmu.offsetMask == OffsetMask(Log2(ps))
    ensures mmu.shift == Log2(ps) && mmu.pfnShift == Log2(ps)
  {
    mmu := new Mmu();
    mmu.AllocPageTable(asb, ps);
    mmu.InitPageTable(asb, ps);
    mmu.InitMmuVariables(asb, ps);
  }

  // ---------------------------------------------------------------------
  // Size of the allocation

  /** The byte count `number_of_ptes * PTE_SIZE` passed to malloc fits a C `int` for every accepted geometry. */
  lemma TableBytesFitInt(asb: int, ps: nat)
    requires ValidGeometry(asb, ps)
    ensures NumberOfPtes(asb, ps) * PTE_SIZE <= INT_MAX
  {
    TableBound(asb, ps);
  }

  /** One more bit of table exponent and the byte count overflows: 2^29 entries take 2^31 bytes. */
  lemma TableBytesBoundIsTight()
    ensures !ValidGeometry(29, 1)
    ensures NumberOfPtes(29, 1) * PTE_SIZE > INT_MAX
  {
    Log2OfPow2(0);
    Pow2Word();
    Pow2Add(29, 3);
  }

  // ---------------------------------------------------------------------
  // Properties of translation

  /**
   * With the layout derived from k = log2(page size), the VPN is va >> k; a
   * missing PTE gives OutOfRange; the valid bit is checked before the access
   * bit; and a successful translation puts the PTE's frame number above the
   * low k bits of va.
   */
  lemma TranslationWithLayout(k: nat, table: seq<Word>, va: Word)
    requires k <= 12
    ensures var o := Translation(VpnMask(k), k, k, OffsetMask(k), table, va);
            var vpn := ShiftRight(va, k);
            (o == OutOfRange <==> |table| <= vpn)
            && (vpn < |table| ==>
                  var p := DecodePte(table[vpn]);
                  (o == NotValid <==> !p.valid)
                  && (o == NotAccessible <==> p.valid && !p.access)
                  && (o.Success? <==> p.valid && p.access)
                  && (o.Success? ==> o.pa == ShiftLeft(p.pfn, k) + LowBits(va, k)))
  {
    var vpn := ShiftRight(va, k);
    assert VirtualPageNumber(VpnMask(k), k, va) == vpn by {
      VpnOfAddress(va, k);
    }
    if vpn < |table| {
      var p := DecodePte(table[vpn]);
      assert p.pfn < Pow2(PFN_BITS) by {
        DecodeBits(table[vpn]);
      }
      assert Or(Shl(p.pfn, k), And(va, OffsetMask(k))) == ShiftLeft(p.pfn, k) + LowBits(va, k) by {
        JoinFrameAndOffset(p.pfn, k, va);
      }
    }
  }

  /** `(pfn << k) | (va & OFFSET_MASK)` puts a 20-bit frame number above the low k bits of va. */
  lemma JoinFrameAndOffset(pfn: Word, k: nat, va: Word)
    requires k <= 12 && pfn < Pow2(PFN_BITS)
    ensures Or(Shl(pfn, k), And(va, OffsetMask(k))) == ShiftLeft(pfn, k) + LowBits(va, k)
  {
    var offset := LowBits(va, k);
    LowBitsBound(va, k);
    calc {
      Or(Shl(pfn, k), And(va, OffsetMask(k)));
      { Pow2Values(); Pow2Monotone(PFN_BITS, WORD_BITS - k); ShlNoWrap(pfn, k); OffsetPart(va, k); }
      OrBits(ShiftLeft(pfn, k) + 0, offset, WORD_BITS);
      { Pow2Values(); Pow2Monotone(PFN_BITS, WORD_BITS - k); ShiftLeftBound(pfn, k, WORD_BITS);
        OrLowBits(pfn, 0, offset, k, WORD_BITS); }
      ShiftLeft(pfn, k) + OrBits(0, offset, k);
      { OrZero(offset, k); LowBitsOfSmall(offset, k); }
      ShiftLeft(pfn, k) + offset;
    }
  }

  /** A successful physical address has the frame as page number, va's offset, and an offset below the page size. */
  lemma SuccessAddressParts(pfn: nat, k: nat, va: Word)
    ensures ShiftRight(ShiftLeft(pfn, k) + LowBits(va, k), k) == pfn
    ensures LowBits(ShiftLeft(pfn, k) + LowBits(va, k), k) == LowBits(va, k) < Pow2(k)
  {
    LowBitsBound(va, k);
    ShiftRightOfShiftLeft(pfn, LowBits(va, k), k);
  }

  /**
   * Entry j of the initial table: in the first half, frame 2 * j (low 20
   * bits), valid, accessible exactly when j % 4 != 0, reserved bits clear;
   * in the second half, zero and so not valid.
   */
  lemma InitialTableEntries(asb: int, ps: nat, j: nat)
    requires 1 <= ps && j < NumberOfPtes(asb, ps)
    ensures var e := InitialTable(asb, ps)[j];
            var p := DecodePte(e);
            if j < NumberOfPtes(asb, ps) / 2 then
              p.pfn == LowBits(2 * j, PFN_BITS) && p.valid && (p.access <==> j % 4 != 0)
              && ReservedBits(e) == 0
            else
              e == 0 && !p.valid
  {
    var e := InitialTable(asb, ps)[j];
    if j < NumberOfPtes(asb, ps) / 2 {
      FilledEntryFields(j);
    } else {
      DecodeBits(e);
    }
  }

  /**
   * End to end: after start-up, an address whose VPN is past the table is
   * OutOfRange, one in the second half is NotValid, one whose VPN is a
   * multiple of 4 is NotAccessible, and any other lands in frame 2 * VPN
   * (low 20 bits) at the same offset.
   */
  lemma InitialTranslation(asb: int, ps: nat, va: Word)
    requires ValidGeometry(asb, ps)
    ensures Log2(ps) <= 12
    ensures var k := Log2(ps);
            var n := NumberOfPtes(asb, ps);
            var vpn := ShiftRight(va, k);
            var o := Translation(VpnMask(k), k, k, OffsetMask(k), InitialTable(asb, ps), va);
            (n <= vpn ==> o == OutOfRange)
            && (n / 2 <= vpn < n ==> o == NotValid)
            && (vpn < n / 2 && vpn % 4 == 0 ==> o == NotAccessible)
            && (vpn < n / 2 && vpn % 4 != 0 ==>
                  o.Success? && o.pa == ShiftLeft(LowBits(2 * vpn, PFN_BITS), k) + LowBits(va, k))
  {
    Log2OfPageSize(ps);
    var k := Log2(ps);
    var vpn := ShiftRight(va, k);
    TranslationWithLayout(k, InitialTable(asb, ps), va);
    if vpn < NumberOfPtes(asb, ps) {
      InitialTableEntries(asb, ps, vpn);
    }
  }

  /** With 32 address bits and 4096-byte pages the frame of VPN v is just 2 * v. */
  lemma StandardGeometry()
    ensures ValidGeometry(32, 4096) && Log2(4096) == 12 && NumberOfPtes(32, 4096) == 0x10_0000
  {
    Pow2Values();
    Log2OfPow2(12);
  }

  /** With 32 address bits and 4096-byte pages: the outcome of every address by its page number. */
  lemma StandardTranslation(va: Word)
    ensures var vpn := ShiftRight(va, 12);
            var o := Translation(VpnMask(12), 12, 12, OffsetMask(12), InitialTable(32, 4096), va);
            (0x8_0000 <= vpn ==> o == NotValid)
            && (vpn < 0x8_0000 && vpn % 4 == 0 ==> o == NotAccessible)
            && (vpn < 0x8_0000 && vpn % 4 != 0 ==>
                  o.Success? && o.pa == ShiftLeft(LowBits(2 * vpn, PFN_BITS), 12) + LowBits(va, 12))
  {
    StandardGeometry();
    FullAddressSpaceInTable(4096, va);
    InitialTranslation(32, 4096, va);
  }

  /** Address 0x1000 is page 1, which maps to frame 2: physical 0x2000. */
  lemma TranslatePageOne(va: Word)
    requires va == 0x1000
    ensures Translation(VpnMask(12), 12, 12, OffsetMask(12), InitialTable(32, 4096), va)
            == Success(0x2000)
  {
    Pow2Values();
    assert ShiftRight(va, 12) == 1 && LowBits(va, 12) == 0 by {
      ShiftLeftIsProduct(1, 12);
      ShiftRightOfShiftLeft(1, 0, 12);
    }
    assert ShiftLeft(LowBits(2, PFN_BITS), 12) == 0x2000 by {
      LowBitsOfSmall(2, PFN_BITS);
      ShiftLeftIsProduct(2, 12);
    }
    StandardTranslation(va);
  }

  /** Address 0 is page 0, valid but not accessible. */
  lemma TranslatePageZero(va: Word)
    requires va == 0
    ensures Translation(VpnMask(12), 12, 12, OffsetMask(12), InitialTable(32, 4096), va)
            == NotAccessible
  {
    assert ShiftRight(va, 12) == 0 by {
      ShiftRightShrinks(va, 12);
    }
    StandardTranslation(va);
  }

  /** Address 0x80000000 is the first page of the unfilled half: not valid. */
  lemma TranslateUpperHalf(va: Word)
    requires va == 0x8000_0000
    ensures Translation(VpnMask(12), 12, 12, OffsetMask(12), InitialTable(32, 4096), va)
            == NotValid
  {
    assert ShiftRight(va, 12) == 0x8_0000 by {
      Pow2Values();
      ShiftLeftIsProduct(0x8_0000, 12);
      ShiftRightOfShiftLeft(0x8_0000, 0, 12);
    }
    StandardTranslation(va);
  }

  /** Address 0x12345abc is page 0x12345 at offset 0xabc: physical 0x2468aabc. */
  lemma TranslateWithOffset(va: Word)
    requires va == 0x1234_5abc
    ensures Translation(VpnMask(12), 12, 12, OffsetMask(12), InitialTable(32, 4096), va)
            == Success(0x2468_aabc)
  {
    Pow2Values();
    assert ShiftRight(va, 12) == 0x12345 && LowBits(va, 12) == 0xabc by {
      ShiftLeftIsProduct(0x12345, 12);
      ShiftRightOfShiftLeft(0x12345, 0xabc, 12);
    }
    assert ShiftLeft(LowBits(2 * 0x12345, PFN_BITS), 12) == 0x2468_a000 by {
      LowBitsOfSmall(0x2468a, PFN_BITS);
      ShiftLeftIsProduct(0x2468a, 12);
    }
    StandardTranslation(va);
  }
}

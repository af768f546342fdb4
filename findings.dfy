/**
 * Three places where mmu.c does not do what it evidently means to: each is
 * modelled as written, with an input that shows the difference, next to the
 * corrected behaviour the rest of the model uses.
 */
module Findings {
  import opened Word32
  import opened Layout
  import opened PageTableEntry
  import opened SoftwareMmu

  // ---------------------------------------------------------------------
  // The memset clears the size of an int, not the size of the table

  /**
   * The table after `malloc` and the `memset` of `sizeof(int)` bytes: heap
   * is what malloc hands back (arbitrary), and only the 4 bytes of entry 0
   * are cleared.
   */
  function AllocatedTableAsWritten(heap: seq<Word>): (t: seq<Word>)
    ensures |t| == |heap|
    ensures 0 < |t| ==> t[0] == 0
    ensures forall j :: 1 <= j < |t| ==> t[j] == heap[j]
  {
    if |heap| == 0 then heap else heap[0 := 0]
  }

  /**
   * With 32 address bits and 4096-byte pages, a heap word 3 left in entry
   * 0x80000 of the upper half makes address 0x80000000 translate to
   * physical 0, where the zero-filled table makes it NotValid.
   */
  lemma UpperHalfMappedAsWritten(heap: seq<Word>, va: Word)
    requires |heap| == 0x10_0000 && heap[0x8_0000] == 3 && va == 0x8000_0000
    ensures Translation(VpnMask(12), 12, 12, OffsetMask(12),
                        FillTable(AllocatedTableAsWritten(heap), 0x8_0000), va) == Success(0)
    ensures Translation(VpnMask(12), 12, 12, OffsetMask(12), InitialTable(32, 4096), va) == NotValid
  {
    var table := FillTable(AllocatedTableAsWritten(heap), 0x8_0000);
    assert ShiftRight(va, 12) == 0x8_0000 && LowBits(va, 12) == 0 by {
      Pow2Values();
      ShiftLeftIsProduct(0x8_0000, 12);
      ShiftRightOfShiftLeft(0x8_0000, 0, 12);
    }
    assert |table| == 0x10_0000 && table[0x8_0000] == 3;
    LeftoverEntry(table[0x8_0000]);
    TranslationWithLayout(12, table, va);
    TranslateUpperHalf(va);
  }

  /** A leftover word 3 decodes as frame 0, valid and accessible. */
  lemma LeftoverEntry(w: Word)
    requires w == 3
    ensures DecodePte(w) == Pte(0, true, true) && ShiftLeft(0, 12) == 0
  {
    Pow2Values();
    DecodeBits(w);
    ShiftLeftIsProduct(0, 12);
    ShiftRightOfShiftLeft(0, w, 12);
  }

  // ---------------------------------------------------------------------
  // A one-byte page shifts by the full width of the word

  /**
   * `0xffffffff >> (32 - k)` as x86 executes it: the shift count is taken
   * modulo 32, so for k == 0 nothing is shifted out.
   */
  function OffsetMaskAsWritten(k: nat): Word
    requires k < WORD_BITS
  {
    Shr(ALL_ONES, (WORD_BITS - k) % WORD_BITS)
  }

  /**
   * For one-byte pages the mask as written is all ones: it overlaps the VPN
   * mask in every bit, where the corrected masks share none.
   */
  lemma OneBytePageMasksOverlap()
    ensures OffsetMaskAsWritten(0) == ALL_ONES
    ensures And(VpnMask(0), OffsetMaskAsWritten(0)) == ALL_ONES
    ensures And(VpnMask(0), OffsetMask(0)) == 0
  {
    Pow2Word();
    MaskValues(0);
    assert ShiftRight(ALL_ONES, 0) == ALL_ONES;
    calc {
      And(VpnMask(0), OffsetMaskAsWritten(0));
      AndBits(ALL_ONES, Pow2(WORD_BITS) - 1, WORD_BITS);
      { AndLowMask(ALL_ONES, WORD_BITS, WORD_BITS); }
      LowBits(ALL_ONES, WORD_BITS);
      { LowBitsOfSmall(ALL_ONES, WORD_BITS); }
      ALL_ONES;
    }
    MasksPartition(0);
  }

  /**
   * With 8 address bits and one-byte pages, address 1 is page 1, which maps
   * to frame 2; the mask as written ORs the whole address into the frame and
   * gives 3, the corrected mask gives 2.
   */
  lemma OneBytePageTranslation(va: Word)
    requires va == 1
    ensures Translation(VpnMask(0), 0, 0, OffsetMaskAsWritten(0), InitialTable(8, 1), va) == Success(3)
    ensures Translation(VpnMask(0), 0, 0, OffsetMask(0), InitialTable(8, 1), va) == Success(2)
  {
    OneBytePageEntry(va);
    OneBytePageJoin(2, va);
  }

  /** Address 1 is page 1 of the 256-entry table, and its entry is frame 2, valid and accessible. */
  lemma OneBytePageEntry(va: Word)
    requires va == 1
    ensures VirtualPageNumber(VpnMask(0), 0, va) == 1 && |InitialTable(8, 1)| == 256
    ensures DecodePte(InitialTable(8, 1)[1]) == Pte(2, true, true)
  {
    Pow2Word();
    Log2OfPow2(0);
    assert NumberOfPtes(8, 1) == 256;
    assert VirtualPageNumber(VpnMask(0), 0, va) == 1 by {
      VpnOfAddress(va, 0);
    }
    assert InitialTable(8, 1)[1] == FilledEntry(1);
    FilledEntryFields(1);
    LowBitsOfSmall(2, PFN_BITS);
  }

  /** Frame 2 joined with the offset of address 1: 3 under the mask as written, 2 under the corrected one. */
  lemma OneBytePageJoin(frame: Word, va: Word)
    requires frame == 2 * va && va == 1
    ensures Or(Shl(frame, 0), And(va, OffsetMaskAsWritten(0))) == 3
    ensures Or(Shl(frame, 0), And(va, OffsetMask(0))) == 2
  {
    Pow2Word();
    assert Shl(frame, 0) == frame by {
      LowBitsOfSmall(frame, WORD_BITS);
    }
    OffsetMaskAsWrittenKeepsAddress(va);
    assert frame == ShiftLeft(va, 1) + 0;
    OrLowBits(va, 0, va, 1, WORD_BITS);
    OrZero(va, 1);
    assert And(va, OffsetMask(0)) == 0 by {
      AndZero(va, WORD_BITS);
    }
    OrZero(frame, WORD_BITS);
    LowBitsOfSmall(frame, WORD_BITS);
  }

  /** For one-byte pages the mask as written keeps the whole address as the offset. */
  lemma OffsetMaskAsWrittenKeepsAddress(va: Word)
    ensures And(va, OffsetMaskAsWritten(0)) == va
  {
    Pow2Word();
    OneBytePageMasksOverlap();
    calc {
      And(va, OffsetMaskAsWritten(0));
      AndBits(va, Pow2(WORD_BITS) - 1, WORD_BITS);
      { AndLowMask(va, WORD_BITS, WORD_BITS); }
      LowBits(va, WORD_BITS);
      { LowBitsOfSmall(va, WORD_BITS); }
      va;
    }
  }

  // ---------------------------------------------------------------------
  // The VPN is used as an index without a bounds check

  /**
   * With 16 address bits and 4096-byte pages the table has 16 entries, yet
   * address 0x10000 has VPN 16: the unchecked read is one past the table.
   */
  lemma UncheckedVpnPastTable(va: Word)
    requires va == 0x1_0000
    ensures NumberOfPtes(16, 4096) == 16
    ensures VirtualPageNumber(VpnMask(12), 12, va) == 16
  {
    SixteenBitGeometry();
    assert ShiftRight(va, 12) == 16 by {
      Pow2Values();
      ShiftLeftIsProduct(16, 12);
      ShiftRightOfShiftLeft(16, 0, 12);
    }
    VpnOfAddress(va, 12);
  }

  /** 16 address bits and 4096-byte pages are accepted and give a 16-entry table. */
  lemma SixteenBitGeometry()
    ensures ValidGeometry(16, 4096) && Log2(4096) == 12 && NumberOfPtes(16, 4096) == 16
  {
    Pow2Values();
    Log2OfPow2(12);
  }

  /** The checked translation reports the same address as OutOfRange. */
  lemma CheckedVpnOutOfRange(va: Word)
    requires va == 0x1_0000
    ensures Translation(VpnMask(12), 12, 12, OffsetMask(12), InitialTable(16, 4096), va) == OutOfRange
  {
    SixteenBitGeometry();
    UncheckedVpnPastTable(va);
    VpnOfAddress(va, 12);
  }
}

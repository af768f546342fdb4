/**
 * A page-table entry (PTE): a 32-bit word holding the page frame number
 * (PFN) in bits 12..31, reserved bits 2..11, the access bit 1 and the valid
 * bit 0.
 */
module PageTableEntry {
  import opened Word32

  const VALID_MASK: Word := 0x1
  const ACCESS_MASK: Word := 0x2
  /** Bit position of the PFN inside an entry. */
  const PFN_POSITION: nat := 12
  /** Width of the PFN field. */
  const PFN_BITS: nat := 20
  /** Bytes per entry. */
  const PTE_SIZE: nat := 4

  /** The fields of an entry. */
  datatype Pte = Pte(pfn: Word, valid: bool, access: bool)

  /** The field-wise reading of an entry. */
  function DecodePte(w: Word): Pte
  {
    Pte(Shr(w, PFN_POSITION), And(w, VALID_MASK) != 0, Shr(And(w, ACCESS_MASK), 1) != 0)
  }

  /** The reference packing (2^12 * pfn + 2 * access + valid); its PFN must fit 20 bits. */
  function EncodePte(p: Pte): (w: Word)
    requires p.pfn < Pow2(PFN_BITS)
  {
    Pow2Values();
    ShiftLeftPlusBound(p.pfn, 3, PFN_POSITION, WORD_BITS);
    ShiftLeft(p.pfn, PFN_POSITION) + (if p.access then 2 else 0) + (if p.valid then 1 else 0)
  }

  /** Bits 2..11, which no field uses. */
  function ReservedBits(w: Word): nat
  {
    LowBits(ShiftRight(w, 2), PFN_POSITION - 2)
  }

  /** The masks and shifts read the entry's top 20 bits, bit 0 and bit 1. */
  lemma DecodeBits(w: Word)
    ensures DecodePte(w) == Pte(ShiftRight(w, PFN_POSITION), w % 2 == 1, (w / 2) % 2 == 1)
    ensures DecodePte(w).pfn < Pow2(PFN_BITS)
  {
    ValidBit(w);
    AccessBit(w);
    Pow2Values();
    ShiftRightBound(w, PFN_POSITION, WORD_BITS);
  }

  /** `PTE & VALID_MASK` is bit 0. */
  lemma ValidBit(w: Word)
    ensures And(w, VALID_MASK) == w % 2
  {
    calc {
      And(w, VALID_MASK);
      AndBits(w, Pow2(1) - 1, WORD_BITS);
      { AndLowMask(w, 1, WORD_BITS); }
      LowBits(w, 1);
      2 * LowBits(w / 2, 0) + w % 2;
    }
  }

  /** `(PTE & ACCESS_MASK) >> 1` is bit 1. */
  lemma AccessBit(w: Word)
    ensures Shr(And(w, ACCESS_MASK), 1) == (w / 2) % 2
  {
    var bit := LowBits(w / 2, 1);
    calc {
      And(w, ACCESS_MASK);
      AndBits(w, ShiftLeft(1, 1), WORD_BITS);
      { AndShiftedMask(w, 1, 1, WORD_BITS); }
      ShiftLeft(AndBits(w / 2, 1, WORD_BITS - 1), 1);
      { AndLowMask(w / 2, 1, WORD_BITS - 1); }
      ShiftLeft(bit, 1);
    }
    ShiftRightOfShiftLeft(bit, 0, 1);
  }

  /** Decoding an encoded entry gives back its fields. */
  lemma DecodeEncode(p: Pte)
    requires p.pfn < Pow2(PFN_BITS)
    ensures DecodePte(EncodePte(p)) == p
    ensures ReservedBits(EncodePte(p)) == 0
  {
    var w := EncodePte(p);
    var flags := (if p.access then 2 else 0) + (if p.valid then 1 else 0);
    DecodeBits(w);
    Pow2Values();
    ShiftRightOfShiftLeft(p.pfn, flags, PFN_POSITION);
    assert ShiftLeft(p.pfn, PFN_POSITION) == 4 * ShiftLeft(p.pfn, PFN_POSITION - 2);
    ShiftRightOfShiftLeft(p.pfn, 0, PFN_POSITION - 2);
    assert ShiftRight(w, 2) == ShiftRight(w / 2, 1) == ShiftRight((w / 2) / 2, 0) == (w / 2) / 2 == ShiftLeft(p.pfn, PFN_POSITION - 2);
  }

  /** An entry whose reserved bits are zero is the encoding of its fields. */
  lemma EncodeDecode(w: Word)
    requires ReservedBits(w) == 0
    ensures DecodePte(w).pfn < Pow2(PFN_BITS) && EncodePte(DecodePte(w)) == w
  {
    DecodeBits(w);
    Decompose(w, PFN_POSITION);
    assert ShiftRight(w, 2) == ShiftRight(w / 2, 1) == ShiftRight((w / 2) / 2, 0) == (w / 2) / 2;
    assert LowBits(w, PFN_POSITION) == 4 * LowBits((w / 2) / 2, PFN_POSITION - 2) + 2 * ((w / 2) % 2) + w % 2;
  }

  /**
   * The entry the initialisation loop stores at index j: frame 2 * j (its low
   * 20 bits, since `<< 12` drops the rest), valid, and accessible unless
   * j is a multiple of 4.
   */
  function FilledPte(j: nat): (p: Pte)
    ensures p.pfn < Pow2(PFN_BITS)
  {
    Pow2Word();
    Pow2Monotone(PFN_BITS, WORD_BITS);
    LowBitsBound(2 * j, PFN_BITS);
    Pte(LowBits(2 * j, PFN_BITS), true, j % 4 != 0)
  }

  function FilledEntry(j: nat): Word
  {
    EncodePte(FilledPte(j))
  }

  /** A filled entry decodes to its fields and has its reserved bits clear. */
  lemma FilledEntryFields(j: nat)
    ensures DecodePte(FilledEntry(j)) == FilledPte(j)
    ensures ReservedBits(FilledEntry(j)) == 0
  {
    DecodeEncode(FilledPte(j));
  }

  /** Up to 2^19 entries the frame of entry j is exactly 2 * j. */
  lemma FilledFrameNoWrap(j: nat)
    requires 2 * j < Pow2(PFN_BITS)
    ensures FilledPte(j).pfn == 2 * j
  {
    LowBitsOfSmall(2 * j, PFN_BITS);
  }

  /** `(2*i) << 12`, then `| VALID_MASK` or `| VALID_MASK | ACCESS_MASK`. */
  function FillExpression(i: Word): Word
  {
    var base := Shl(Double(i), PFN_POSITION);
    if i % 4 == 0 then Or(base, VALID_MASK) else Or(Or(base, VALID_MASK), ACCESS_MASK)
  }

  /** The C expression computes the filled entry. */
  lemma FillExpressionIsFilledEntry(i: Word)
    ensures FillExpression(i) == FilledEntry(i)
  {
    var hi := LowBits(2 * i, PFN_BITS);
    LowBitsBound(2 * i, PFN_BITS);
    Pow2Values();
    var base := Shl(Double(i), PFN_POSITION);
    FrameOfDouble(i);
    var valid := Or(base, VALID_MASK);
    OrIntoFlags(base, hi, 0, VALID_MASK);
    FlagBits();
    if i % 4 != 0 {
      OrIntoFlags(valid, hi, 1, ACCESS_MASK);
    }
  }

  /** `(i * 2) << 12` is the low 20 bits of 2 * i placed at bit 12. */
  lemma FrameOfDouble(i: Word)
    ensures Shl(Double(i), PFN_POSITION) == ShiftLeft(LowBits(2 * i, PFN_BITS), PFN_POSITION)
  {
    LowBitsOfShiftLeft(LowBits(2 * i, WORD_BITS), PFN_POSITION, WORD_BITS);
    LowBitsOfLowBits(2 * i, PFN_BITS, WORD_BITS);
  }

  /** The flag values the initialisation ORs together. */
  lemma FlagBits()
    ensures OrBits(0, VALID_MASK, PFN_POSITION) == 1
    ensures OrBits(1, ACCESS_MASK, PFN_POSITION) == 3
  {
    Pow2Values();
    OrZero(1, PFN_POSITION);
    LowBitsOfSmall(1, PFN_POSITION);
    assert OrBits(1, 2, PFN_POSITION) == 2 * OrBits(0, 1, PFN_POSITION - 1) + 1;
    OrZero(1, PFN_POSITION - 1);
    Pow2Monotone(1, PFN_POSITION - 1);
    LowBitsOfSmall(1, PFN_POSITION - 1);
  }

  /** ORing a flag into the low 12 bits leaves the frame number alone. */
  lemma OrIntoFlags(w: Word, pfn: nat, flags: nat, c: Word)
    requires pfn < Pow2(PFN_BITS) && flags < Pow2(PFN_POSITION) && c < Pow2(PFN_POSITION)
    requires w == ShiftLeft(pfn, PFN_POSITION) + flags
    ensures Or(w, c) == ShiftLeft(pfn, PFN_POSITION) + OrBits(flags, c, PFN_POSITION)
  {
    Pow2Values();
    ShiftLeftBound(pfn, PFN_POSITION, WORD_BITS);
    OrLowBits(pfn, flags, c, PFN_POSITION, WORD_BITS);
  }
}

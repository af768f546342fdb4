# Software-managed MMU, modelled in Dafny

`mmu.c` simulates a memory-management unit that translates 32-bit virtual
addresses through a single-level page table. Five global registers make up
its state:
- `PTBR`, the page-table base;
- `VPN_MASK` and `SHIFT`, which pick the virtual page number (VPN) out of an address;
- `PFN_SHIFT`, the position of the page frame number (PFN) in the physical address;
- `OFFSET_MASK`, which picks the page offset.

Start-up does three things:
- it allocates a table of 2^(address bits − log2 page size) four-byte page-table entries (PTEs);
- it fills the first half of the table, where entry i maps to frame 2·i;
- it derives the masks from the page size.

A translation then runs in order:
- it fetches the PTE of the VPN;
- it fails with `NOT_VALID` when bit 0 of the PTE is clear;
- it fails with `NOT_ACCESSIBLE` when bit 1 is clear;
- otherwise it joins the PFN (bits 12..31 of the PTE) with the offset.

The model has five modules:
- `Word32` holds the C operations on `unsigned int`, that is `&`, `|`, `>>` and `<<` with wrap-around, together with their bit-level facts. Every operation is defined by a recursion that halves or doubles one bit at a time.
- `Layout` covers the integer base-2 logarithm of the page size, the two masks and the table size.
- `PageTableEntry` holds the fields of a PTE, the decoding `mmu.c` performs, a reference encoding, and the entry the initialisation loop writes.
- `SoftwareMmu` contains the class `Mmu`, which holds the registers and the table as an `array`. It provides the four operations as methods and the end-to-end lemmas. `Translate` is proved against the function `Translation`. `AllocPageTable`, `InitPageTable` and `StartUp` are proved against the table functions `ZeroTable`, `FillTable` and `InitialTable`.
- `Findings` models three defects of the code as written, each next to the corrected behaviour that the rest of the model uses.

## Model

| member | source | states |
|---|---|---|
| Word32.And | mmu.c:93-109 | C's 32-bit `&`: the low 32 bits of the bitwise AND; the result is a 32-bit word |
| Word32.Or | mmu.c:110 | C's 32-bit `\|`: the low 32 bits of the bitwise OR; the result is a 32-bit word |
| Word32.Shr | mmu.c:99 | C's `>>` on `unsigned int` for counts below 32: the word halved k times, rounding down |
| Word32.Shl | mmu.c:69 | C's `<<` on `unsigned int`: the word doubled k times, keeping the low 32 bits (wrap-around) |
| Word32.Double | mmu.c:69 | C's `i * 2` on `unsigned int`: 2·i modulo 2^32 |
| Word32.Pow2 | mmu.c:50 | a power of two is positive (the `pow(2, e)` of the table size) |
| Layout.Log2 | mmu.c:36-39 | `(int)log2(ps)` is the k with 2^k ≤ ps < 2^(k+1) |
| Layout.PowerOfTwoLog2 | mmu.c:37 | ps is a power of two exactly when ps == 2^log2(ps) |
| Layout.Log2OfPow2 | mmu.c:37 | log2(2^k) == k |
| Layout.Log2OfPageSize | mmu.c:37 | every page size from 1 to 4096 has log2 ≤ 12 |
| Layout.VpnMask | mmu.c:36 | `(0xffffffff >> k) << k` with the C operators |
| Layout.OffsetMask | mmu.c:39 | `0xffffffff >> (32 - k)` with the C operators for k ≥ 1, and 0 for a one-byte page, where the C shift count would be 32 |
| Layout.MaskValues | mmu.c:36-39 | VPN_MASK is bits k..31, i.e. 2^32 − 2^k; OFFSET_MASK is bits 0..k−1, i.e. 2^k − 1 |
| Layout.MasksPartition | mmu.c:36-39 | VPN_MASK & OFFSET_MASK == 0 and VPN_MASK \| OFFSET_MASK == 0xFFFFFFFF, for every k including 0 |
| Layout.PagePart | mmu.c:93 | va & VPN_MASK is va with its low k bits cleared |
| Layout.OffsetPart | mmu.c:109 | va & OFFSET_MASK is the low k bits of va |
| Layout.AddressSplit | mmu.c:93-109 | (va & VPN_MASK) \| (va & OFFSET_MASK) == va, along with both parts |
| Layout.VpnOfAddress | mmu.c:93 | (va & VPN_MASK) >> SHIFT == va >> k |
| Layout.OffsetMaskOfPageSize | mmu.c:39 | for a power-of-two page size, OFFSET_MASK == ps − 1 |
| Layout.NumberOfPtes | mmu.c:50 | `(int)pow(2, asb - log2(ps))`: 2 to the exponent, and 0 when the exponent is negative, because the fraction truncates |
| Layout.ValidGeometry | mmu.c:129-139 | the ranges `main` accepts (1..32 address bits, 1..4096-byte pages), plus a table exponent of at most 28, which keeps the malloc byte count inside a C `int` |
| Layout.TableCoversAddressSpace | mmu.c:50 | number of PTEs × page size == 2^asb, when the page fits the address space |
| Layout.TableBound | mmu.c:50 | an accepted geometry has at most 2^28 PTEs |
| Layout.VpnInTable | mmu.c:93-95 | each address below 2^asb has its VPN inside the table |
| Layout.FullAddressSpaceInTable | mmu.c:93-95 | with 32 address bits, every address has its VPN inside the table |
| PageTableEntry.DecodePte | mmu.c:99-101 | the fields read by `PTE >> PFN_POSITION`, `PTE & VALID_MASK` and `(PTE & ACCESS_MASK) >> 1`, each flag true when nonzero |
| PageTableEntry.DecodeBits | mmu.c:99-101 | the decoded pfn is PTE >> 12 and fits 20 bits; valid is bit 0; access is bit 1 |
| PageTableEntry.ValidBit | mmu.c:100 | PTE & VALID_MASK is bit 0 |
| PageTableEntry.AccessBit | mmu.c:101 | (PTE & ACCESS_MASK) >> 1 is bit 1 |
| PageTableEntry.DecodeEncode | mmu.c:99-101 | decoding the encoding of any fields gives back those fields, and the reserved bits 2..11 are clear |
| PageTableEntry.EncodeDecode | mmu.c:99-101 | a word whose reserved bits are clear is the encoding of its decoded fields |
| PageTableEntry.FilledPte | mmu.c:69-73 | the frame stored at index j fits the 20-bit PFN field |
| PageTableEntry.FilledEntryFields | mmu.c:69-73 | the entry stored at index j decodes to frame (2·j mod 2^20), valid, accessible iff j % 4 != 0, with reserved bits clear |
| PageTableEntry.FilledFrameNoWrap | mmu.c:69 | below 2^19 the stored frame is exactly 2·j |
| PageTableEntry.FillExpression | mmu.c:69-73 | the value the loop stores at index i: `(i * 2) << PFN_POSITION`, ORed with VALID_MASK, and with ACCESS_MASK too unless i % 4 == 0 |
| PageTableEntry.FillExpressionIsFilledEntry | mmu.c:69-73 | the C expression `((i*2) << 12) \| VALID_MASK [\| ACCESS_MASK]` computes that entry |
| PageTableEntry.FrameOfDouble | mmu.c:69 | `(i*2) << 12` keeps the low 20 bits of 2·i, placed at bit 12 |
| SoftwareMmu.Translation | mmu.c:93-111 | the VPN `(va & VPN_MASK) >> SHIFT`; OutOfRange past the table; otherwise NotValid when the valid bit is clear, then NotAccessible when the access bit is clear, else Success with `(pfn << PFN_SHIFT) \| (va & OFFSET_MASK)` |
| SoftwareMmu.ZeroTable | mmu.c:53 | the cleared table has one entry per PTE |
| SoftwareMmu.Mmu.constructor | mmu.c:19-23 | the registers start at 0 and PTBR starts as null |
| SoftwareMmu.Mmu.InitMmuVariables | mmu.c:34-40 | sets VPN_MASK, SHIFT == PFN_SHIFT == log2 ps and OFFSET_MASK; the masks partition the word; OFFSET_MASK == ps − 1 for a power of two; PTBR is untouched |
| SoftwareMmu.Mmu.AllocPageTable | mmu.c:47-54 | PTBR becomes a fresh table of 2^(asb − log2 ps) zero entries; the masks and shifts are untouched |
| SoftwareMmu.Mmu.InitPageTable | mmu.c:60-75 | the first n/2 entries become the filled entries and every later entry keeps its old value |
| SoftwareMmu.Mmu.Translate | mmu.c:83-113 | the status and physical address are those of the translation function; on a fault the physical address passed in comes back unchanged; the table is only read |
| SoftwareMmu.StartUp | mmu.c:141-150 | after alloc, init and mask set-up, the table is the initial table and the registers hold the derived layout |
| SoftwareMmu.TableBytesFitInt | mmu.c:51 | for every accepted geometry, `number_of_ptes * PTE_SIZE` is at most INT_MAX |
| SoftwareMmu.TableBytesBoundIsTight | mmu.c:51 | an exponent of 29 (29 bits, 1-byte pages) is rejected, and its byte count 2^31 exceeds INT_MAX |
| SoftwareMmu.TranslationWithLayout | mmu.c:93-111 | VPN past the table ⇔ OutOfRange; !valid ⇔ NotValid, even with the access bit set; valid && !access ⇔ NotAccessible; both ⇔ Success with pa == (pfn << k) + (va mod 2^k) |
| SoftwareMmu.JoinFrameAndOffset | mmu.c:109-110 | (pfn << PFN_SHIFT) \| (va & OFFSET_MASK) is the frame placed above the offset, with no overlap |
| SoftwareMmu.SuccessAddressParts | mmu.c:110 | the physical address has the frame as its page number and va's offset, and that offset is below the page size |
| SoftwareMmu.InitialTableEntries | mmu.c:60-75 | after start-up, entry j < n/2 is frame 2·j (mod 2^20), valid, accessible iff j % 4 != 0, with reserved bits clear; entry j ≥ n/2 is 0 and not valid |
| SoftwareMmu.InitialTranslation | mmu.c:83-113 | after start-up, the outcome of every address follows from its VPN: OutOfRange, NotValid in the upper half, NotAccessible for VPN % 4 == 0, and otherwise frame 2·VPN at the same offset |
| SoftwareMmu.StandardGeometry | mmu.c:129-139 | with 32 bits and 4096-byte pages the geometry is accepted, log2 is 12 and the table has 2^20 entries |
| SoftwareMmu.StandardTranslation | mmu.c:83-113 | with 32 bits and 4096-byte pages, every address's outcome follows from its VPN |
| SoftwareMmu.TranslatePageOne | mmu.c:106-111 | with 32 bits / 4096 bytes, VA 0x1000 translates to 0x2000 |
| SoftwareMmu.TranslatePageZero | mmu.c:107 | with 32 bits / 4096 bytes, VA 0 is NotAccessible |
| SoftwareMmu.TranslateUpperHalf | mmu.c:106 | with 32 bits / 4096 bytes, VA 0x80000000 is NotValid |
| SoftwareMmu.TranslateWithOffset | mmu.c:109-110 | with 32 bits / 4096 bytes, VA 0x12345abc translates to 0x2468aabc |
| Findings.AllocatedTableAsWritten | mmu.c:51-53 | after the memset as written, only entry 0 is cleared and every other entry is whatever the heap held |
| Findings.UpperHalfMappedAsWritten | mmu.c:53 | a heap word 3 left in entry 0x80000 turns VA 0x80000000 into Success(0); the zero-filled table gives NotValid |
| Findings.LeftoverEntry | mmu.c:99-101 | the leftover word 3 reads as frame 0, valid and accessible |
| Findings.OffsetMaskAsWritten | mmu.c:39 | `0xffffffff >> (32 - k)` with the shift count taken modulo 32, as x86 executes it |
| Findings.OneBytePageMasksOverlap | mmu.c:36-39 | for one-byte pages the mask as written is 0xFFFFFFFF and overlaps VPN_MASK in every bit; the corrected masks share no bit |
| Findings.OffsetMaskAsWrittenKeepsAddress | mmu.c:109 | for one-byte pages, va & OFFSET_MASK as written is the whole of va |
| Findings.OneBytePageTranslation | mmu.c:39 | with 8 bits and 1-byte pages, VA 1 translates to 3 under the mask as written and to 2 under the corrected mask |
| Findings.OneBytePageEntry | mmu.c:69-73 | with 8 bits and 1-byte pages, VA 1 is page 1, and its entry is frame 2, valid and accessible |
| Findings.OneBytePageJoin | mmu.c:110 | frame 2 joined with VA 1 gives 3 under the mask as written and 2 under the corrected mask |
| Findings.UncheckedVpnPastTable | mmu.c:93-97 | with 16 bits and 4096-byte pages the table has 16 entries, yet VA 0x10000 has VPN 16 |
| Findings.SixteenBitGeometry | mmu.c:50 | 16 bits with 4096-byte pages is accepted and gives 16 entries |
| Findings.CheckedVpnOutOfRange | mmu.c:95 | the bounds-checked translation reports VA 0x10000 as OutOfRange |

## Left out

- `main` (mmu.c:116-187) is not modelled. That covers argument parsing, the range checks on its inputs, the `scanf` loop, the messages and `free`. `StartUp` models its start-up sequence, and `ValidGeometry` models its accepted ranges.
- The `printf` inside the translation (mmu.c:103) is output only and is not modelled.
- A failing `malloc` and the `PTBR == NULL` exit (mmu.c:51, mmu.c:143-147) are not modelled: allocation always succeeds.
- `log2` and `pow` work in floating point. `Layout.Log2` and `Word32.Pow2` are their exact integer counterparts, and `(int)log2(ps)` equals the floor of the base-2 logarithm for every page size from 1 to 4096.
- Byte-addressed pointer arithmetic on `PTBR` (mmu.c:68, mmu.c:95) is modelled as indexing an array of 32-bit words.
- SoftwareMmu.Mmu.AllocPageTable: geometries with a table exponent above 28 are excluded by `ValidGeometry`, although `main` accepts them (for example 32 bits with pages of 1 to 15 bytes). From exponent 29 the byte count `number_of_ptes * PTE_SIZE` overflows a C `int` (see `TableBytesBoundIsTight`). From exponent 31 `number_of_ptes` itself overflows. The C allocation then gets a wrapped size, and the model does not describe what follows.
- When the page is larger than the address space (asb < log2 ps, e.g. 1 bit with 4096-byte pages), the table has zero entries. The C code then writes the 4-byte `memset` into `malloc(0)`. The model allocates an empty table and translates every address to OutOfRange.
- SoftwareMmu.Mmu.InitPageTable requires the table to hold at least n/2 entries. The C loop writes past a shorter table.
- SoftwareMmu.Mmu.Translate requires a non-null PTBR and shifts below 32, as every caller in `mmu.c` provides. The C code would dereference null or shift by the full width.
- `OUT_OF_RANGE` (−3) is a status that `mmu.c` does not have. It is the corrected result for a VPN past the table; see Findings.

## Findings

| source | as written | input that shows it | evidently intended | confidence | as-written member | corrected member |
|---|---|---|---|---|---|---|
| mmu.c:53 | `memset(ptr, 0, sizeof(number_of_ptes * PTE_SIZE))` clears `sizeof(int)` bytes, which is only entry 0 | 32 bits, 4096-byte pages, the heap leaves 3 in entry 0x80000: VA 0x80000000 gives SUCCESS with physical 0 | clear all `number_of_ptes * PTE_SIZE` bytes, so the upper half is NOT_VALID | not executed | Findings.UpperHalfMappedAsWritten | SoftwareMmu.InitialTableEntries |
| mmu.c:39 | `0xffffffff >> (32 - log2(ps))` shifts by 32 when the page size is 1, which C leaves undefined; x86 takes the count mod 32 and gives 0xFFFFFFFF | 8 bits, 1-byte pages, VA 1: physical 3 instead of 2 | the mask of a one-byte page is 0 | not executed | Findings.OneBytePageTranslation | Layout.MasksPartition |
| mmu.c:95 | the VPN indexes the table without a bounds check | 16 bits, 4096-byte pages, VA 0x10000: VPN 16 reads one entry past the 16-entry table | reject a VPN past the table | not executed | Findings.UncheckedVpnPastTable | Findings.CheckedVpnOutOfRange |

/** The words of the extended page tables: how hypervisor/ept.cc packs them field by field, the
    value that results, and how it reads back.  The bit positions are those of Intel SDM Vol. 3C
    section 28.3.2. */
module EptEntry {
  import opened Bits
  import opened Paging

  const FRAME_LIMIT: nat := 0x10_0000_0000
  const LARGE_FRAME_LIMIT: nat := 0x800_0000
  const WRITE_BACK: nat := 6
  const PAGE_WALK_LENGTH_4: nat := 3

  // ------------------------------------------------------------------- reading

  predicate CanRead(w: u64) { w % 2 == 1 }

  predicate CanWrite(w: u64) { w / 2 % 2 == 1 }

  predicate CanExecute(w: u64) { w / 4 % 2 == 1 }

  predicate Present(w: u64) { CanRead(w) || CanWrite(w) || CanExecute(w) }

  predicate Accessible(w: u64) { CanRead(w) && CanWrite(w) && CanExecute(w) }

  function LeafType(w: u64): nat { w / 8 % 8 }

  predicate IsLarge(w: u64) { w / 0x80 % 2 == 1 }

  function FrameOf(w: u64): (pfn: nat)
    ensures pfn < FRAME_LIMIT
  {
    w / 0x1000 % FRAME_LIMIT
  }

  function LargeFrameOf(w: u64): (pfn: nat)
    ensures pfn < LARGE_FRAME_LIMIT
  {
    w / PAGE_2M % LARGE_FRAME_LIMIT
  }

  /** The reads are the bit fields of the entry formats. */
  lemma ReadsAreFields(w: u64)
    ensures CanRead(w) <==> Field(w, 0, 1) == 1
    ensures CanWrite(w) <==> Field(w, 1, 1) == 1
    ensures CanExecute(w) <==> Field(w, 2, 1) == 1
    ensures LeafType(w) == Field(w, 3, 3) && (IsLarge(w) <==> Field(w, 7, 1) == 1)
    ensures FrameOf(w) == Field(w, 12, 36) && LargeFrameOf(w) == Field(w, 21, 27)
  {
    hide Pow2;
    Pow2Values();
    SmallPowers();
  }

  lemma SmallPowers()
    ensures Pow2(0) == 1 && Pow2(1) == 2 && Pow2(2) == 4 && Pow2(4) == 16 && Pow2(5) == 32 && Pow2(6) == 64 && Pow2(7) == 0x80
  {
  }

  // ---------------------------------------------------------------- the words

  /** A PML4, PDPT or PD entry that points to the next table. */
  function PointerEntry(frame: nat): u64 { 7 + frame % FRAME_LIMIT * 0x1000 }

  /** A PT entry for the page at `address`. */
  function SmallLeaf(address: u64, memType: nat): u64
  {
    7 + memType % 8 * 8 + address / PAGE_4K % FRAME_LIMIT * 0x1000
  }

  /** A 2 MiB PD entry with the given value in its frame field. */
  function LargeEntry(frame: nat, memType: nat): u64
  {
    0x87 + memType % 8 * 8 + frame % LARGE_FRAME_LIMIT * PAGE_2M
  }

  /** The 2 MiB PD entry the builder writes: the frame field gets the address shifted by 12. */
  function LargeLeaf(address: u64, memType: nat): u64
  {
    LargeEntry(address / PAGE_4K, memType)
  }

  /** The EPT pointer for a PML4 frame. */
  function EptPointer(frame: nat): u64
  {
    WRITE_BACK + PAGE_WALK_LENGTH_4 * 8 + frame % FRAME_LIMIT * 0x1000
  }

  /** A pointer entry is read back as a present non-leaf with the frame written. */
  lemma PointerReads(frame: nat)
    requires frame < FRAME_LIMIT
    ensures var w := PointerEntry(frame);
            Accessible(w) && !IsLarge(w) && FrameOf(w) == frame
  {
    LowBits(PointerEntry(frame), 7, frame);
  }

  /** A 4 KiB leaf is read back as the page and type written, the type truncated to three bits. */
  lemma SmallLeafReads(address: u64, memType: nat)
    requires address < ADDRESS_SPACE
    ensures var w := SmallLeaf(address, memType);
            Accessible(w) && !IsLarge(w) && LeafType(w) == memType % 8 && FrameOf(w) == address / PAGE_4K
  {
    LowBits(SmallLeaf(address, memType), 7 + memType % 8 * 8, address / PAGE_4K);
  }

  /** A 2 MiB leaf is read back as the frame field and type written. */
  lemma LargeReads(frame: nat, memType: nat)
    requires frame < LARGE_FRAME_LIMIT
    ensures var w := LargeEntry(frame, memType);
            Accessible(w) && IsLarge(w) && LeafType(w) == memType % 8 && LargeFrameOf(w) == frame
  {
    var w, low := LargeEntry(frame, memType), 0x87 + memType % 8 * 8;
    LowBits(w, low, frame * ENTRIES);
    DivModUnique(w, PAGE_2M, frame, low);
  }

  /** What VM entry demands of an EPT pointer (section 26.2.1.1): memory type 0 or 6, a page-walk length of 4
      less one, and zeros in the reserved bits. */
  predicate PointerAccepted(eptp: u64)
  {
    && (Field(eptp, 0, 3) == 0 || Field(eptp, 0, 3) == 6)
    && Field(eptp, 3, 3) == 3 && Field(eptp, 7, 5) == 0 && Field(eptp, 48, 16) == 0
  }

  lemma EptPointerReads(frame: nat)
    requires frame < FRAME_LIMIT
    ensures FrameOf(EptPointer(frame)) == frame && PointerAccepted(EptPointer(frame))
  {
    hide Field, Pow2;
    LowBits(EptPointer(frame), 30, frame);
    EptPointerFields(frame);
  }

  // ------------------------------------------------------- all bits of each word

  /** The fields of a word with `low` below bit 12 and the frame number `high` above. */
  lemma WordFields(w: u64, low: nat, high: nat, lo: nat, width: nat)
    requires w == low + high * 0x1000 && low < 0x1000 && high < FRAME_LIMIT && lo + width <= 12
    ensures Field(w, lo, width) == Field(low, lo, width)
    ensures Field(w, 12, 36) == high && Field(w, 48, 16) == 0 && Field(w, 12, 40) == high
  {
    hide Pow2;
    Pow2Values();
    DivModUnique(w, 0x1000, high, low);
    assert w / 0x1_0000_0000_0000 == 0;
    Pow2Add(lo, width);
    Pow2Add(lo + width, 12 - lo - width);
    MulAssociates(Pow2(lo), Pow2(width), Pow2(12 - lo - width));
    LowDigit(w, Pow2(lo), Pow2(width), Pow2(12 - lo - width));
    HighField(high);
  }

  lemma MulAssociates(p: nat, q: nat, r: nat)
    ensures p * (q * r) == (p * q) * r
  {
  }

  lemma HighField(high: nat)
    requires high < FRAME_LIMIT
    ensures high % Pow2(36) == high && high % Pow2(40) == high
  {
    hide Pow2;
    Pow2Values();
    Pow2Add(36, 4);
    SmallPowers();
    Pow2Monotone(36, 40);
    DivModUnique(high, Pow2(36), 0, high);
    DivModUnique(high, Pow2(40), 0, high);
  }

  /** Every bit of a pointer entry: readable, writable and executable, reserved and ignored bits clear. */
  lemma PointerFields(frame: nat)
    requires frame < FRAME_LIMIT
    ensures var w := PointerEntry(frame);
            && Field(w, 0, 3) == 7 && Field(w, 3, 9) == 0
            && Field(w, 12, 36) == frame && Field(w, 48, 16) == 0 && Field(w, 12, 40) == frame
  {
    hide Field;
    var w := PointerEntry(frame);
    WordFields(w, 7, frame, 0, 3);
    WordFields(w, 7, frame, 3, 9);
    FieldLiterals(7);
  }

  /** Every bit of a 4 KiB leaf. */
  lemma SmallLeafFields(address: u64, memType: nat)
    requires address < ADDRESS_SPACE
    ensures var w, f := SmallLeaf(address, memType), address / 0x1000;
            && Field(w, 0, 3) == 7 && Field(w, 3, 3) == memType % 8 && Field(w, 6, 6) == 0
            && Field(w, 12, 36) == f && Field(w, 48, 16) == 0 && Field(w, 12, 40) == f
  {
    hide Field;
    var w, low, f := SmallLeaf(address, memType), 7 + memType % 8 * 8, address / 0x1000;
    WordFields(w, low, f, 0, 3);
    WordFields(w, low, f, 3, 3);
    WordFields(w, low, f, 6, 6);
    FieldLiterals(low);
  }

  /** Every bit of a 2 MiB leaf. */
  lemma LargeFields(frame: nat, memType: nat)
    requires frame < LARGE_FRAME_LIMIT
    ensures var w := LargeEntry(frame, memType);
            && Field(w, 0, 3) == 7 && Field(w, 3, 3) == memType % 8 && Field(w, 6, 1) == 0 && Field(w, 7, 1) == 1
            && Field(w, 8, 4) == 0 && Field(w, 12, 9) == 0 && Field(w, 21, 27) == frame && Field(w, 48, 16) == 0
            && Field(w, 12, 40) == 512 * frame
  {
    hide Field;
    var w, low := LargeEntry(frame, memType), 0x87 + memType % 8 * 8;
    LargeLow(memType % 8);
    LargeWordFields(w, low, frame);
    LargeFrameField(w, low, frame);
  }

  lemma LargeWordFields(w: u64, low: nat, frame: nat)
    requires w == low + frame * PAGE_2M && low < 0x1000 && frame < LARGE_FRAME_LIMIT
    ensures Field(w, 0, 3) == low % 8 && Field(w, 3, 3) == low / 8 % 8 && Field(w, 6, 1) == low / 0x40 % 2
    ensures Field(w, 7, 1) == low / 0x80 % 2 && Field(w, 8, 4) == low / 0x100
    ensures Field(w, 48, 16) == 0 && Field(w, 12, 40) == 512 * frame
  {
    hide Field;
    WordFields(w, low, 512 * frame, 0, 3);
    WordFields(w, low, 512 * frame, 3, 3);
    WordFields(w, low, 512 * frame, 6, 1);
    WordFields(w, low, 512 * frame, 7, 1);
    WordFields(w, low, 512 * frame, 8, 4);
    FieldLiterals(low);
  }

  lemma LargeLow(t: nat)
    requires t < 8
    ensures var low := 0x87 + t * 8;
            low < 0x1000 && low % 8 == 7 && low / 8 % 8 == t && low / 0x40 % 2 == 0 && low / 0x80 % 2 == 1 && low / 0x100 == 0
  {
  }

  lemma LargeFrameField(w: u64, low: nat, frame: nat)
    requires w == low + frame * PAGE_2M && low < 0x1000 && frame < LARGE_FRAME_LIMIT
    ensures Field(w, 21, 27) == frame && Field(w, 12, 9) == 0
  {
    hide Pow2;
    Pow2Values();
    DivModUnique(w, PAGE_2M, frame, low);
    DivModUnique(w, 0x1000, 512 * frame, low);
    DivModUnique(512 * frame, 512, frame, 0);
  }

  /** Every bit of the EPT pointer: write-back tables, a walk of four levels. */
  lemma EptPointerFields(frame: nat)
    requires frame < FRAME_LIMIT
    ensures var w := EptPointer(frame);
            && Field(w, 0, 3) == 6 && Field(w, 3, 3) == 3 && Field(w, 6, 6) == 0 && Field(w, 7, 5) == 0
            && Field(w, 12, 36) == frame && Field(w, 48, 16) == 0
  {
    hide Field;
    var w := EptPointer(frame);
    WordFields(w, 30, frame, 0, 3);
    WordFields(w, 30, frame, 3, 3);
    WordFields(w, 30, frame, 6, 6);
    WordFields(w, 30, frame, 7, 5);
    FieldLiterals(30);
  }

  lemma FieldLiterals(low: nat)
    requires low < 0x1000
    ensures Field(low, 0, 3) == low % 8 && Field(low, 3, 3) == low / 8 % 8 && Field(low, 3, 9) == low / 8
    ensures Field(low, 6, 6) == low / 0x40 && Field(low, 6, 1) == low / 0x40 % 2 && Field(low, 7, 1) == low / 0x80 % 2
    ensures Field(low, 8, 4) == low / 0x100 && Field(low, 7, 5) == low / 0x80
  {
    hide Pow2;
    Pow2Values();
    SmallPowers();
  }

  /** The access bits, the large bit and the type sit below bit 12. */
  lemma LowBits(w: u64, low: nat, high: nat)
    requires w == low + high * 0x1000 && low < 0x1000
    ensures (CanRead(w) <==> low % 2 == 1) && (CanWrite(w) <==> low / 2 % 2 == 1) && (CanExecute(w) <==> low / 4 % 2 == 1)
    ensures LeafType(w) == low / 8 % 8 && (IsLarge(w) <==> low / 0x80 % 2 == 1)
    ensures FrameOf(w) == high % FRAME_LIMIT
  {
    DivModUnique(w, 0x1000, high, low);
    LowDigit(w, 1, 2, 0x800);
    LowDigit(w, 2, 2, 0x400);
    LowDigit(w, 4, 2, 0x200);
    LowDigit(w, 8, 8, 0x40);
    LowDigit(w, 0x80, 2, 0x10);
  }

  /** The builder's error check compares a three-bit field with 0xFF, so it can never fire. */
  lemma ErrorBranchDead(w: u64)
    ensures LeafType(w) != 0xFF
  {
  }

  lemma ZeroEntryAbsent()
    ensures !Present(0) && FrameOf(0) == 0
  {
  }

  // ------------------------------------------------------------------- packing

  /** Writing into a clear field, with the powers of two spelled out. */
  lemma Put(w: nat, lo: nat, width: nat, v: nat, p: nat, q: nat)
    requires p == Pow2(lo) && q == Pow2(width) && w / p % q == 0
    ensures WithField(w, lo, width, v) == w + v % q * p
  {
    WithFieldAdds(w, lo, width, v);
  }

  /** `flags = 0`, then the three access bits. */
  method PackAccess() returns (w: nat)
    ensures w == 7
  {
    hide WithField, Pow2;
    SmallPowers();
    w := 0;
    Put(w, 0, 1, 1, 1, 2);
    w := WithField(w, 0, 1, 1);
    Put(w, 1, 1, 1, 2, 2);
    w := WithField(w, 1, 1, 1);
    Put(w, 2, 1, 1, 4, 2);
    w := WithField(w, 2, 1, 1);
  }

  /** The field assignments of a pointer entry. */
  method PackPointer(frame: nat) returns (w: u64)
    ensures w == PointerEntry(frame)
  {
    hide WithField, Pow2;
    Pow2Values();
    var f := PackAccess();
    Put(f, 12, 36, frame, 0x1000, FRAME_LIMIT);
    w := WithField(f, 12, 36, frame);
  }

  /** The field assignments of a 4 KiB leaf. */
  method PackSmallLeaf(address: u64, memType: nat) returns (w: u64)
    ensures w == SmallLeaf(address, memType)
  {
    hide WithField, Pow2;
    Pow2Values();
    var f := PackAccess();
    Put(f, 3, 3, memType, 8, 8);
    f := WithField(f, 3, 3, memType);
    Put(f, 12, 36, address / PAGE_4K, 0x1000, FRAME_LIMIT);
    w := WithField(f, 12, 36, address / PAGE_4K);
  }

  /** The field assignments of a 2 MiB leaf. */
  method PackLargeLeaf(address: u64, memType: nat) returns (w: u64)
    ensures w == LargeLeaf(address, memType)
  {
    hide WithField, Pow2;
    Pow2Values();
    SmallPowers();
    var f := PackAccess();
    Put(f, 7, 1, 1, 0x80, 2);
    f := WithField(f, 7, 1, 1);
    Put(f, 3, 3, memType, 8, 8);
    f := WithField(f, 3, 3, memType);
    Put(f, 21, 27, address / PAGE_4K, PAGE_2M, LARGE_FRAME_LIMIT);
    w := WithField(f, 21, 27, address / PAGE_4K);
  }

  /** The field assignments of the EPT pointer. */
  method PackEptPointer(frame: nat) returns (w: u64)
    ensures w == EptPointer(frame)
  {
    hide WithField, Pow2;
    Pow2Values();
    SmallPowers();
    var f := 0;
    Put(f, 0, 3, WRITE_BACK, 1, 8);
    f := WithField(f, 0, 3, WRITE_BACK);
    Put(f, 3, 3, PAGE_WALK_LENGTH_4, 8, 8);
    f := WithField(f, 3, 3, PAGE_WALK_LENGTH_4);
    Put(f, 12, 36, frame, 0x1000, FRAME_LIMIT);
    w := WithField(f, 12, 36, frame);
  }
}

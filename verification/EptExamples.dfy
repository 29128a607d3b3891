/** Register contents on which the tree is wrong: one uncacheable range over write-back memory, fixed ranges
    off, 36-bit physical addresses. */
module EptExamples {
  import opened Bits
  import opened BitOps
  import opened Paging
  import opened Mtrr
  import opened MemoryType
  import opened MtrrRule
  import opened EptEntry
  import opened EptBuild
  import opened EptWalk
  import opened EptCorrect
  import opened EptHost

  const WIDTH: nat := 36

  const FRAMES: nat := 0x100_0000

  /** One uncacheable range of `size` frames from frame `f` on, default type write-back. */
  function OneRange(f: nat, size: nat): Msrs
    requires f < FRAMES && 0 < size < FRAMES
  {
    (r: u32) =>
      if r == IA32_MTRR_CAPABILITIES then 1
      else if r == IA32_MTRR_DEF_TYPE then 6
      else if r == IA32_MTRR_PHYSBASE0 then f * 0x1000
      else if r == IA32_MTRR_PHYSMASK0 then (FRAMES - size) * 0x1000 + 0x800
      else 0
  }

  /** The size is a power of two below 2^24 and the range is aligned to it. */
  ghost predicate Natural(f: nat, size: nat)
  {
    f < FRAMES && 0 < size < FRAMES && f % size == 0 && exists k :: 0 <= k < WIDTH - 12 && size == Pow2(k)
  }

  lemma Registers(f: nat, size: nat)
    requires f < FRAMES && 0 < size < FRAMES
    ensures var regs := OneRange(f, size);
            && VariableCount(regs) == 1 && VariableOn(regs, 0) && !FixedOn(regs) && DefaultType(regs) == WB
            && FrameField(PhysBase(regs, 0)) == f && FrameField(PhysMask(regs, 0)) == FRAMES - size
            && Byte(PhysBase(regs, 0), 0) == UC
            && SdmCount(regs) == 1 && SdmOn(regs, 0) && !SdmFixedOn(regs) && SdmDefault(regs) == WB
            && SdmBase(regs, 0) == f && SdmMask(regs, 0) == FRAMES - size && SdmRangeType(regs, 0) == UC
  {
    hide Field, SdmCount, SdmOn, SdmFixedOn, SdmDefault, SdmBase, SdmMask, SdmRangeType;
    Decoding(OneRange(f, size));
    DecodingRange(OneRange(f, size), 0);
    DivModUnique(f * 0x1000, 0x1000, f, 0);
    DivModUnique((FRAMES - size) * 0x1000 + 0x800, 0x1000, FRAMES - size, 0x800);
    DivModUnique((FRAMES - size) * 0x1000 + 0x800, 0x800, (FRAMES - size) * 2 + 1, 0);
    DivModUnique(f * 0x1000, 0x100, f * 0x10, 0);
  }

  /** The lowest set bit of a contiguous mask. */
  lemma {:induction false} BsfContiguous(p: nat, k: nat)
    requires k < p
    ensures Pow2(k) < Pow2(p) && Bsf(Pow2(p) - Pow2(k)) == k
  {
    hide Bsf, Pow2;
    Pow2Halves(p);
    if k > 0 {
      Pow2Halves(k);
      BsfContiguous(p - 1, k - 1);
      var half := Pow2(p - 1) - Pow2(k - 1);
      assert Pow2(p) - Pow2(k) == 2 * half;
      BsfTwice(half);
    } else {
      assert Pow2(0) == 1 by { PowZero(); }
      BsfOdd(Pow2(p) - 1);
    }
  }

  lemma PowZero()
    ensures Pow2(0) == 1
  {
  }

  lemma BsfTwice(m: nat)
    requires m > 0
    ensures Bsf(2 * m) == Bsf(m) + 1
  {
    assert 2 * m / 2 == m && 2 * m % 2 == 0;
  }

  lemma BsfOdd(m: nat)
    requires m % 2 == 1
    ensures Bsf(m) == 0
  {
  }

  lemma OneRangeProgrammed(f: nat, size: nat)
    requires Natural(f, size)
    ensures RangeProgrammed(OneRange(f, size), 0, WIDTH - 12) && Pow2(Bsf(FRAMES - size)) == size
  {
    hide OneRange, VariableCount, VariableOn, FixedOn, DefaultType, FrameField, Byte, Bsf, Pow2, PhysBase, PhysMask;
    hide SdmCount, SdmOn, SdmFixedOn, SdmDefault, SdmBase, SdmMask, SdmRangeType;
    Registers(f, size);
    var k :| 0 <= k < WIDTH - 12 && size == Pow2(k);
    Pow2Values();
    Pow2Add(12, 12);
    BsfContiguous(24, k);
  }

  /** The processor accepts these registers, and they decode to the one interval. */
  lemma OneRangeTable(f: nat, size: nat)
    requires Natural(f, size)
    ensures var regs := OneRange(f, size);
            && Programmed(regs, WIDTH) && MasksNonZero(regs)
            && f + size <= FRAMES && TableOf(regs) == [Entry(true, false, UC, f * 0x1000, (f + size) * 0x1000)]
  {
    hide OneRange, VariableCount, VariableOn, FixedOn, DefaultType, FrameField, Byte, Bsf, Pow2, PhysBase, PhysMask;
    hide SdmCount, SdmOn, SdmFixedOn, SdmDefault, SdmBase, SdmMask, SdmRangeType;
    hide RangeProgrammed, SdmFixedType;
    var regs := OneRange(f, size);
    Registers(f, size);
    OneRangeProgrammed(f, size);
    assert Programmed(regs, WIDTH);
    RangeIsProgrammed(regs, 0, WIDTH);
    OneInterval(f, size);
    assert VariableTable(regs, 0) == [];
    assert VariableTable(regs, 1) == [VariableEntry(regs, 0)];
  }

  lemma OneInterval(f: nat, size: nat)
    requires Natural(f, size) && Programmed(OneRange(f, size), WIDTH)
    requires FrameField(PhysMask(OneRange(f, size), 0)) != 0
    ensures f + size <= FRAMES
    ensures VariableEntry(OneRange(f, size), 0) == Entry(true, false, UC, f * 0x1000, (f + size) * 0x1000)
  {
    hide OneRange, VariableCount, VariableOn, FixedOn, DefaultType, FrameField, Byte, Bsf, Pow2, PhysBase, PhysMask;
    hide SdmCount, SdmOn, SdmFixedOn, SdmDefault, SdmBase, SdmMask, SdmRangeType;
    hide RangeProgrammed, Programmed;
    Registers(f, size);
    OneRangeProgrammed(f, size);
    Pow2Values();
    EntryIsMatch(OneRange(f, size), 0, WIDTH, 0);
  }

  /** The rule for these registers. */
  lemma OneRangeType(f: nat, size: nat, a: nat)
    requires Natural(f, size) && a < FRAMES * 0x1000
    ensures SdmType(OneRange(f, size), a, if f * 0x1000 <= a < (f + size) * 0x1000 then UC else WB)
  {
    hide OneRange, VariableCount, VariableOn, FixedOn, DefaultType, FrameField, Byte, Pow2, PhysBase, PhysMask;
    hide SdmCount, SdmOn, SdmFixedOn, SdmDefault, SdmBase, SdmMask, SdmRangeType;
    hide TableOf, Programmed, MasksNonZero, SdmVariableTypes;
    var regs := OneRange(f, size);
    Registers(f, size);
    OneRangeTable(f, size);
    Pow2Values();
    TypesAgree(regs, WIDTH, a);
    OneEntryTypes(TableOf(regs)[0], a);
  }

  lemma OneEntryTypes(e: Entry, a: nat)
    ensures VariableTypes([e], 0, a) == if !e.fixed && e.Contains(a) then {e.typ} else {}
  {
    var t := [e];
    if !e.fixed && e.Contains(a) { assert t[0].typ in VariableTypes(t, 0, a); }
  }

  /** The code's answer for a 2 MiB page. */
  lemma OneRangeLarge(f: nat, size: nat, n: nat)
    requires Natural(f, size) && n < LARGE_PAGES
    ensures var regs := OneRange(f, size);
            MasksNonZero(regs) &&
            LargeType(regs, n) ==
              if !(f * 0x1000 <= n * PAGE_2M < (f + size) * 0x1000) then WB
              else if (f + size) * 0x1000 < (n + 1) * PAGE_2M then INVALID else UC
  {
    hide OneRange, TableOf, Programmed, DefaultType, MasksNonZero;
    hide VariableCount, VariableOn, FixedOn, FrameField, Byte, PhysBase, PhysMask;
    hide SdmCount, SdmOn, SdmFixedOn, SdmDefault, SdmBase, SdmMask, SdmRangeType;
    OneRangeTable(f, size);
    Registers(f, size);
    var t := TableOf(OneRange(f, size));
    assert ScanFrom(t, WB, n * PAGE_2M, PAGE_2M, 1, INVALID) == WB;
  }

  lemma PowerSizes()
    ensures Natural(0x300, 0x100) && Natural(0x4_0000, 1) && Natural(0x4_0000, 0x4_0000)
  {
    hide Pow2;
    Pow2Values();
    Pow2Add(9, 9);
    PowZero();
  }

  /** Uncacheable from 3 MiB to 4 MiB: the second 2 MiB page gets one write-back leaf, so the leaf for the
      uncacheable address 3 MiB is wrong, and leads to 1 GiB + 1 MiB instead of 3 MiB. */
  lemma InnerRangeMissed(s: Supply, m: Memory)
    requires Setup(OneRange(0x300, 0x100), WIDTH, s, m)
    ensures var regs := OneRange(0x300, 0x100);
            && Translate(m, EptPointer(s.Pml4()), 0x30_0000) == Mapped(0x4010_0000, WB)
            && SdmType(regs, 0x30_0000, UC) && !LeafRight(regs, s, m, 0x30_0000)
  {
    hide Translate, EptPointer, Supply.Built, Query.Split, LargeType, SdmType, Natural, Programmed, Loaded;
    var regs := OneRange(0x300, 0x100);
    PowerSizes();
    OneRangeType(0x300, 0x100, 0x30_0000);
    OneRangeLarge(0x300, 0x100, 1);
    OneRangeLeaf(0x300, 0x100, s, m, 0x30_0000);
    if SdmType(regs, 0x30_0000, WB) { SdmUnique(regs, 0x30_0000, UC, WB); }
  }

  /** In an unsplit page the leaf has the large query's type; in a split one, over these registers, the
      type of the rule. */
  lemma OneRangeLeaf(f: nat, size: nat, s: Supply, m: Memory, a: u64)
    requires Natural(f, size) && Setup(OneRange(f, size), WIDTH, s, m) && a < FRAMES * 0x1000
    ensures var n := a / PAGE_2M;
            var r := Translate(m, EptPointer(s.Pml4()), a);
            && r.Mapped?
            && (s.q.Split(n) <==> LargeType(OneRange(f, size), n) == INVALID)
            && r.address == (if s.q.Split(n) then a else n * PAGE_1G + a % PAGE_2M)
            && r.memType == if !s.q.Split(n) then LargeType(OneRange(f, size), n)
                            else if f * 0x1000 <= a < (f + size) * 0x1000 then UC else WB
  {
    hide Translate, EptPointer, Supply.Built, Query.Type, Query.Split, Scan, Loaded, SdmType, Programmed, Pow2, SdmDefined;
    hide TableOf, DefaultType;
    var regs := OneRange(f, size);
    Pow2Values();
    PageFacts(a);
    LeafTypeIs(regs, WIDTH, s, m, a);
    TranslateIs(s, m, a);
    if s.q.Split(a / PAGE_2M) {
      OneRangeType(f, size, a);
      TypeIsDefined(regs, a);
      LeafRightIs(regs, WIDTH, s, m, a);
      SdmUnique(regs, a, Translate(m, EptPointer(s.Pml4()), a).memType, if f * 0x1000 <= a < (f + size) * 0x1000 then UC else WB);
    }
  }

  /** One uncacheable page at 1 GiB: its 2 MiB page is split and maps 1 GiB to itself, while the leaf of the
      second 2 MiB page leads there too, with the other type. */
  lemma TwoGuestsOneHost(s: Supply, m: Memory)
    requires Setup(OneRange(0x4_0000, 1), WIDTH, s, m)
    ensures Clash(s, 1)
    ensures var p := EptPointer(s.Pml4());
            Translate(m, p, PAGE_2M) == Mapped(PAGE_1G, WB) && Translate(m, p, PAGE_1G) == Mapped(PAGE_1G, UC)
  {
    hide Translate, EptPointer, Supply.Built, Query.Split, LargeType, Setup, Natural;
    PowerSizes();
    OneRangeLarge(0x4_0000, 1, 1);
    OneRangeLarge(0x4_0000, 1, 512);
    OneRangeLeaf(0x4_0000, 1, s, m, PAGE_2M);
    OneRangeLeaf(0x4_0000, 1, s, m, PAGE_1G);
  }

  /** Uncacheable from 1 GiB to 2 GiB: 2 MiB is write-back and its leaf says so, but the leaf leads to 1 GiB. */
  lemma HostTypeMissed(s: Supply, m: Memory)
    requires Setup(OneRange(0x4_0000, 0x4_0000), WIDTH, s, m)
    ensures var regs := OneRange(0x4_0000, 0x4_0000);
            && Translate(m, EptPointer(s.Pml4()), PAGE_2M) == Mapped(PAGE_1G, WB)
            && SdmType(regs, PAGE_2M, WB) && SdmType(regs, PAGE_1G, UC)
            && LeafRight(regs, s, m, PAGE_2M) && !HostRight(regs, s, m, PAGE_2M)
  {
    hide Translate, EptPointer, Supply.Built, Query.Split, LargeType, SdmType, Natural, Programmed, Loaded;
    var regs := OneRange(0x4_0000, 0x4_0000);
    PowerSizes();
    OneRangeLarge(0x4_0000, 0x4_0000, 1);
    OneRangeLeaf(0x4_0000, 0x4_0000, s, m, PAGE_2M);
    OneRangeType(0x4_0000, 0x4_0000, PAGE_2M);
    OneRangeType(0x4_0000, 0x4_0000, PAGE_1G);
    if SdmType(regs, PAGE_1G, WB) { SdmUnique(regs, PAGE_1G, UC, WB); }
  }
}

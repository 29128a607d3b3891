/** The entries the processor refuses to walk through: EPT misconfigurations, Intel SDM Vol. 3C section
    28.3.3.1, for a processor with `maxPhyAddr` physical address bits. */
module EptConfig {
  import opened Bits
  import opened Paging
  import opened Mtrr
  import opened MemoryType
  import opened MtrrRule
  import opened EptEntry
  import opened EptBuild
  import opened EptWalk
  import opened EptCorrect

  /** A write without a read permission, or frame bits beyond the physical address width. */
  predicate BadAccess(w: u64, maxPhyAddr: nat)
    requires 12 <= maxPhyAddr
  {
    (Field(w, 1, 1) == 1 && Field(w, 0, 1) == 0) || Field(w, 12, 40) >= Pow2(maxPhyAddr - 12)
  }

  /** An entry that points to a table: bits 3 to 7 are reserved. */
  predicate BadPointer(w: u64, maxPhyAddr: nat)
    requires 12 <= maxPhyAddr
  {
    BadAccess(w, maxPhyAddr) || Field(w, 3, 5) != 0
  }

  /** A leaf: memory types 2, 3 and 7 are reserved, and so are bits 12 to 20 of a 2 MiB leaf. */
  predicate BadLeaf(w: u64, maxPhyAddr: nat, large: bool)
    requires 12 <= maxPhyAddr
  {
    || BadAccess(w, maxPhyAddr)
    || Field(w, 3, 3) == 2 || Field(w, 3, 3) == 3 || Field(w, 3, 3) == 7
    || (large && Field(w, 12, 9) != 0)
  }

  /** The walk for an address meets a misconfigured entry. */
  ghost predicate Misconfigured(m: Memory, eptp: u64, address: u64, maxPhyAddr: nat)
    requires Physical(m) && 12 <= maxPhyAddr
  {
    var w := ResolveEntries(m, eptp, address);
    || BadPointer(Load(m, w.pml4), maxPhyAddr) || BadPointer(Load(m, w.pdpt), maxPhyAddr)
    || match w.pt
       case None => BadLeaf(Load(m, w.pd), maxPhyAddr, true)
       case Some(pt) => BadPointer(Load(m, w.pd), maxPhyAddr) || BadLeaf(Load(m, pt), maxPhyAddr, false)
  }

  /** The frames handed out exist. */
  ghost predicate FramesExist(s: Supply, maxPhyAddr: nat)
    requires 12 <= maxPhyAddr
  {
    forall i :: 0 <= i < |s.frames| ==> s.frames[i] < Pow2(maxPhyAddr - 12)
  }

  lemma AccessBits(w: u64)
    requires Field(w, 0, 3) == 7
    ensures Field(w, 0, 1) == 1 && Field(w, 1, 1) == 1
  {
    hide Pow2;
    Pow2Values();
    SmallPowers();
    LowDigit(w, 1, 2, 4);
    LowDigit(w, 2, 2, 2);
  }

  lemma GoodPointer(frame: nat, maxPhyAddr: nat)
    requires frame < FRAME_LIMIT && 12 <= maxPhyAddr && frame < Pow2(maxPhyAddr - 12)
    ensures !BadPointer(PointerEntry(frame), maxPhyAddr)
  {
    hide Field, Pow2, PointerEntry;
    PointerFields(frame);
    AccessBits(PointerEntry(frame));
    FewerBits(PointerEntry(frame));
  }

  lemma FewerBits(w: u64)
    requires Field(w, 3, 9) == 0
    ensures Field(w, 3, 5) == 0
  {
    hide Pow2;
    Pow2Values();
    SmallPowers();
    LowDigit(w / 8, 1, 32, 16);
  }

  lemma GoodSmallLeaf(address: u64, memType: nat, maxPhyAddr: nat)
    requires address < ADDRESS_SPACE && ValidType(memType) && 12 <= maxPhyAddr && address < Pow2(maxPhyAddr)
    ensures !BadLeaf(SmallLeaf(address, memType), maxPhyAddr, false)
  {
    hide Field, Pow2, SmallLeaf;
    SmallLeafFields(address, memType);
    AccessBits(SmallLeaf(address, memType));
    FrameBelow(address, maxPhyAddr);
  }

  /** A 2 MiB leaf is misconfigured exactly when its frame is beyond the physical address width. */
  lemma LargeLeafExactly(n: nat, memType: nat, maxPhyAddr: nat)
    requires n < LARGE_PAGES && ValidType(memType) && 32 <= maxPhyAddr
    ensures BadLeaf(LargeLeaf(n * PAGE_2M, memType), maxPhyAddr, true) <==> n * PAGE_1G >= Pow2(maxPhyAddr)
  {
    hide Field, Pow2, LargeEntry;
    assert n * PAGE_2M / PAGE_4K == 512 * n;
    LargeFields(512 * n, memType);
    AccessBits(LargeEntry(512 * n, memType));
    Pow2Values();
    Pow2Add(12, maxPhyAddr - 12);
    ScaledCompare(512 * (512 * n), Pow2(maxPhyAddr - 12));
  }

  lemma ScaledCompare(x: nat, p: nat)
    ensures x >= p <==> x * 0x1000 >= 0x1000 * p
  {
  }

  lemma FrameExists(s: Supply, maxPhyAddr: nat, slot: nat)
    requires 12 <= maxPhyAddr && FramesExist(s, maxPhyAddr)
    ensures s.At(slot) < Pow2(maxPhyAddr - 12)
  {
  }

  /** Which accesses fault for a malformed entry: exactly those to an unsplit page whose leaf, because of the
      shift, names memory beyond the processor's physical addresses. */
  lemma MisconfiguredExactly(regs: Msrs, maxPhyAddr: nat, s: Supply, m: Memory, a: u64)
    requires Setup(regs, maxPhyAddr, s, m) && 12 <= maxPhyAddr && FramesExist(s, maxPhyAddr)
    requires a < PML4_SPAN && a < Pow2(maxPhyAddr)
    ensures Misconfigured(m, EptPointer(s.Pml4()), a, maxPhyAddr)
       <==> !s.q.Split(a / PAGE_2M) && a / PAGE_2M * PAGE_1G >= Pow2(maxPhyAddr)
  {
    hide EptPointer, Supply.Built, Query.Type, TableOf, DefaultType, Scan, Loaded, Programmed, Pow2, BadPointer, BadLeaf;
    hide PointerEntry, LargeLeaf, SmallLeaf, Supply.At, ResolveEntries, Supply.Pd, Supply.Pt, MasksNonZero;
    var n := a / PAGE_2M;
    PageFacts(a);
    ProgrammedWidth(regs, maxPhyAddr);
    WalkRefinesBuild(s, m, a);
    IntendedWords(s, m, a);
    QueriesValid(regs, maxPhyAddr, a);
    LoadedType(regs, s.q, PageOf(a), PAGE_4K);
    LoadedType(regs, s.q, n * PAGE_2M, PAGE_2M);
    TableFramesGood(s, maxPhyAddr, n);
    if s.q.Split(n) {
      SmallWordGood(s.q, maxPhyAddr, a);
    } else {
      LargeLeafExactly(n, s.q.Type(n * PAGE_2M, PAGE_2M), maxPhyAddr);
    }
  }

  lemma TableFramesGood(s: Supply, maxPhyAddr: nat, n: nat)
    requires 12 <= maxPhyAddr && FramesExist(s, maxPhyAddr) && n < LARGE_PAGES
    ensures !BadPointer(PointerEntry(s.Pdpt()), maxPhyAddr) && !BadPointer(PointerEntry(s.Pd(n / ENTRIES)), maxPhyAddr)
    ensures !BadPointer(PointerEntry(s.Pt(n)), maxPhyAddr)
  {
    hide BadPointer, PointerEntry, Supply.At, Pow2;
    FrameExists(s, maxPhyAddr, 1);
    FrameExists(s, maxPhyAddr, s.PdSlot(n / ENTRIES));
    FrameExists(s, maxPhyAddr, s.PtSlot(n));
    GoodPointer(s.Pdpt(), maxPhyAddr);
    GoodPointer(s.Pd(n / ENTRIES), maxPhyAddr);
    GoodPointer(s.Pt(n), maxPhyAddr);
  }

  lemma SmallWordGood(q: Query, maxPhyAddr: nat, a: u64)
    requires a < PML4_SPAN && 12 <= maxPhyAddr && a < Pow2(maxPhyAddr) && ValidType(q.Type(PageOf(a), PAGE_4K))
    ensures a / PAGE_2M < LARGE_PAGES
    ensures !BadLeaf(q.SmallWord(a / PAGE_2M, a / PAGE_4K % ENTRIES), maxPhyAddr, false)
  {
    hide BadLeaf, SmallLeaf, Query.Type, Pow2;
    var n, k := a / PAGE_2M, a / PAGE_4K % ENTRIES;
    DivDiv(a, PAGE_4K, ENTRIES);
    assert n * PAGE_2M + k * PAGE_4K == PageOf(a);
    GoodSmallLeaf(PageOf(a), q.Type(PageOf(a), PAGE_4K), maxPhyAddr);
  }
}

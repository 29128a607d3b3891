/** End to end: after the MTRR table is read and the tree is built from it, the memory type the
    processor finds in the leaf for an address is the type the MTRR rule gives that address. */
module EptCorrect {
  import opened Bits
  import opened Paging
  import opened Mtrr
  import opened MemoryType
  import opened MtrrRule
  import opened MtrrRegion
  import opened MtrrSplit
  import opened EptEntry
  import opened EptBuild
  import opened EptWalk

  /** The query scans the table decoded from these registers. */
  ghost predicate Loaded(regs: Msrs, q: Query)
    requires MasksNonZero(regs)
  {
    var n := |TableOf(regs)|;
    && n <= |q.table| && q.table[..n] == TableOf(regs) && (n < |q.table| ==> !q.table[n].enabled)
    && q.default == DefaultType(regs)
  }

  lemma LoadedType(regs: Msrs, q: Query, address: u64, size: u64)
    requires MasksNonZero(regs) && Loaded(regs, q)
    ensures q.Type(address, size) == Scan(TableOf(regs), DefaultType(regs), address, size)
  {
    hide ScanFrom, TableOf;
    ScanStops(q.table, |TableOf(regs)|, q.default, address, size, 0, INVALID);
  }

  /** The rule gives an address at most one type. */
  lemma SdmUnique(regs: Msrs, a: nat, r: u8, r': u8)
    requires SdmType(regs, a, r) && SdmType(regs, a, r')
    ensures r == r'
  {
    hide SdmFixedType, SdmVariableTypes, SdmFixedOn, Precedence, SdmDefault;
    if !(SdmFixedOn(regs) && a < ONE_MIB) {
      PrecedenceUnique(SdmVariableTypes(regs, a), SdmDefault(regs), r, r');
    }
  }

  /** A query over a proper table answers with a valid type or not at all. */
  lemma {:induction false} ScanValid(t: seq<Entry>, d: u8, start: u64, size: u64, i: nat, result: u8)
    requires i <= |t| && Proper(t) && ValidType(d) && (result == INVALID || ValidType(result))
    ensures ScanFrom(t, d, start, size, i, result) == INVALID || ValidType(ScanFrom(t, d, start, size, i, result))
    decreases |t| - i
  {
    if i < |t| {
      ScanValid(t, d, start, size, i + 1, result);
      ScanValid(t, d, start, size, i + 1, Merge(result, t[i].typ));
    }
  }

  /** No variable range begins strictly inside the n-th 2 MiB page. */
  ghost predicate NoVariableBegin(regs: Msrs, n: nat)
  {
    forall i :: 0 <= i < SdmCount(regs) && SdmOn(regs, i) ==> !(n * PAGE_2M < SdmBase(regs, i) * 0x1000 < n * PAGE_2M + PAGE_2M)
  }

  /** For an unsplit page the fixed ranges never matter. */
  lemma UnsplitNoBegin(regs: Msrs, maxPhyAddr: nat, n: nat)
    requires Programmed(regs, maxPhyAddr) && MasksNonZero(regs) && n < LARGE_PAGES
    requires NoVariableBegin(regs, n) && Scan(TableOf(regs), DefaultType(regs), n * PAGE_2M, PAGE_2M) != INVALID
    ensures NoBeginInside(TableOf(regs), n * PAGE_2M)
  {
    hide Scan, Byte, FixedPart, FixedOn, VariableTable, Programmed, DefaultType, SdmCount, SdmOn, SdmBase, VariableOn;
    hide FrameField, RangeSize, MasksNonZero, VariableCount;
    Decoding(regs);
    var t := TableOf(regs);
    forall k | 0 <= k < |t|
      ensures !(n * PAGE_2M < t[k].begin < n * PAGE_2M + PAGE_2M)
    {
      if k < |FixedPart(regs)| {
        FixedBeginsLow(regs, k);
        if n == 0 { PageZeroSplits(regs); }
      } else {
        var i := VariableOrigin(regs, k);
        DecodingRange(regs, i);
      }
    }
  }

  lemma FixedBeginsLow(regs: Msrs, k: nat)
    requires k < |FixedPart(regs)|
    ensures FixedOn(regs) && FixedPart(regs)[k].begin < ONE_MIB
  {
    hide Byte, FixedTable, FixedOn, FixedBegin, FixedBank;
    FixedTableShape(regs, FIXED_BANKS, k);
  }

  /** The type in the leaf for one address, in terms of the scan. */
  lemma LeafTypeIs(regs: Msrs, maxPhyAddr: nat, s: Supply, m: Memory, a: u64)
    requires Programmed(regs, maxPhyAddr) && MasksNonZero(regs) && Loaded(regs, s.q)
    requires Physical(m) && s.Built(m) && a < PML4_SPAN
    ensures var n := a / PAGE_2M;
            var t, d := TableOf(regs), DefaultType(regs);
            var r := Translate(m, EptPointer(s.Pml4()), a);
            && r.Mapped?
            && (s.q.Split(n) <==> Scan(t, d, n * PAGE_2M, PAGE_2M) == INVALID)
            && r.memType == if s.q.Split(n) then Scan(t, d, PageOf(a), PAGE_4K) else Scan(t, d, n * PAGE_2M, PAGE_2M)
  {
    hide Translate, EptPointer, Supply.Built, TableOf, DefaultType, Scan, Query.Type, Query.Split;
    hide Loaded, SdmType, Programmed, Pow2, Proper;
    var n := a / PAGE_2M;
    PageFacts(a);
    SplitIs(regs, s.q, n);
    TranslateIs(s, m, a);
    LoadedType(regs, s.q, PageOf(a), PAGE_4K);
    LoadedType(regs, s.q, n * PAGE_2M, PAGE_2M);
    QueriesValid(regs, maxPhyAddr, a);
  }

  lemma SplitIs(regs: Msrs, q: Query, n: nat)
    requires MasksNonZero(regs) && Loaded(regs, q) && n < LARGE_PAGES
    ensures q.Split(n) <==> Scan(TableOf(regs), DefaultType(regs), n * PAGE_2M, PAGE_2M) == INVALID
  {
    LoadedType(regs, q, n * PAGE_2M, PAGE_2M);
  }

  lemma PageFacts(a: nat)
    requires a < PML4_SPAN
    ensures var base := a / PAGE_2M * PAGE_2M;
            && a / PAGE_2M < LARGE_PAGES && base % PAGE_2M == 0
            && PageOf(a) % PAGE_4K == 0 && 0 <= PageOf(a) <= a && InLargePage(PageOf(a), base)
  {
    var n := a / PAGE_2M;
    DivDiv(a, PAGE_4K, ENTRIES);
    DivModUnique(n * PAGE_2M, PAGE_2M, n, 0);
    DivModUnique(PageOf(a), PAGE_4K, a / PAGE_4K, 0);
  }

  lemma DefaultValid(regs: Msrs, maxPhyAddr: nat)
    requires Programmed(regs, maxPhyAddr)
    ensures ValidType(DefaultType(regs))
  {
    hide DefaultType, SdmDefault, SdmFixedOn, SdmFixedType, RangeProgrammed, SdmCount, SdmOn;
    Decoding(regs);
  }

  /** 4 KiB queries give a valid type; 2 MiB queries a valid type or none. */
  lemma QueriesValid(regs: Msrs, maxPhyAddr: nat, a: u64)
    requires Programmed(regs, maxPhyAddr) && MasksNonZero(regs) && a < PML4_SPAN
    ensures var t, d := TableOf(regs), DefaultType(regs);
            && ValidType(Scan(t, d, PageOf(a), PAGE_4K))
            && (Scan(t, d, a / PAGE_2M * PAGE_2M, PAGE_2M) == INVALID || ValidType(Scan(t, d, a / PAGE_2M * PAGE_2M, PAGE_2M)))
  {
    var t, d := TableOf(regs), DefaultType(regs);
    PageFacts(a);
    hide TableOf, DefaultType, Programmed, ScanFrom;
    DefaultValid(regs, maxPhyAddr);
    TableIsProper(regs, maxPhyAddr);
    ScanValid(t, d, a / PAGE_2M * PAGE_2M, PAGE_2M, 0, INVALID);
    SmallPageHasType(t, d, PageOf(a), 0, INVALID);
  }

  /** End to end, under the condition that makes large pages sound. */
  lemma MemoryTypesCorrect(regs: Msrs, maxPhyAddr: nat, s: Supply, m: Memory, a: u64)
    requires Programmed(regs, maxPhyAddr) && MasksNonZero(regs) && Loaded(regs, s.q)
    requires Physical(m) && s.Built(m)
    requires a < PML4_SPAN && a < Pow2(maxPhyAddr) && SdmDefined(regs, a)
    requires NoVariableBegin(regs, a / PAGE_2M)
    ensures var r := Translate(m, EptPointer(s.Pml4()), a);
            r.Mapped? && r.memType < 8 && SdmType(regs, a, r.memType)
  {
    hide Translate, EptPointer, Supply.Built, TableOf, DefaultType, Scan, Query.Type, Query.Split;
    hide Loaded, SdmType, Programmed, Pow2, Proper;
    var n := a / PAGE_2M;
    PageFacts(a);
    LeafTypeIs(regs, maxPhyAddr, s, m, a);
    ScanIsSdm(regs, maxPhyAddr, a);
    QueriesValid(regs, maxPhyAddr, a);
    if !s.q.Split(n) {
      SoundPage(regs, maxPhyAddr, n, PageOf(a));
    }
  }

  lemma SoundPage(regs: Msrs, maxPhyAddr: nat, n: nat, p: u64)
    requires Programmed(regs, maxPhyAddr) && MasksNonZero(regs) && n < LARGE_PAGES && NoVariableBegin(regs, n)
    requires InLargePage(p, n * PAGE_2M) && p % PAGE_4K == 0
    requires Scan(TableOf(regs), DefaultType(regs), n * PAGE_2M, PAGE_2M) != INVALID
    ensures Scan(TableOf(regs), DefaultType(regs), p, PAGE_4K) == Scan(TableOf(regs), DefaultType(regs), n * PAGE_2M, PAGE_2M)
  {
    UnsplitNoBegin(regs, maxPhyAddr, n);
    DivModUnique(n * PAGE_2M, PAGE_2M, n, 0);
    hide ScanFrom, TableOf, DefaultType, NoBeginInside, Programmed, NoVariableBegin;
    LargePageSound(TableOf(regs), DefaultType(regs), n * PAGE_2M, p, 0, INVALID);
  }

  // -------------------------------------------------------------- exactly when

  /** The processor finds, in the leaf for `a`, the type the MTRR rule gives it. */
  ghost predicate LeafRight(regs: Msrs, s: Supply, m: Memory, a: u64)
    requires Physical(m)
  {
    var r := Translate(m, EptPointer(s.Pml4()), a);
    r.Mapped? && r.memType < 8 && SdmType(regs, a, r.memType)
  }

  /** Everything the theorems assume about registers, table and tree. */
  ghost predicate Setup(regs: Msrs, maxPhyAddr: nat, s: Supply, m: Memory)
  {
    && Programmed(regs, maxPhyAddr) && MasksNonZero(regs) && Loaded(regs, s.q)
    && Physical(m) && s.Built(m)
  }

  /** In a split page an address is right exactly when the rule defines its type; in an unsplit page
      exactly when the rule gives it the type of the large query. */
  lemma LeafRightIs(regs: Msrs, maxPhyAddr: nat, s: Supply, m: Memory, a: u64)
    requires Setup(regs, maxPhyAddr, s, m) && a < PML4_SPAN && a < Pow2(maxPhyAddr)
    ensures var n := a / PAGE_2M;
            LeafRight(regs, s, m, a) <==>
            if s.q.Split(n) then SdmDefined(regs, a) else SdmType(regs, a, LargeType(regs, n))
  {
    hide Translate, EptPointer, Supply.Built, TableOf, DefaultType, Scan, Query.Type, Query.Split;
    hide Loaded, SdmType, SdmDefined, Programmed, Pow2, Proper;
    LeafTypeIs(regs, maxPhyAddr, s, m, a);
    QueriesValid(regs, maxPhyAddr, a);
    if SdmDefined(regs, a) {
      ScanIsSdm(regs, maxPhyAddr, a);
    }
    TypeIsDefined(regs, a);
  }

  /** The answer of the large query for the n-th 2 MiB page. */
  function LargeType(regs: Msrs, n: nat): u8
    requires MasksNonZero(regs) && n < LARGE_PAGES
  {
    Scan(TableOf(regs), DefaultType(regs), n * PAGE_2M, PAGE_2M)
  }

  lemma TypeIsDefined(regs: Msrs, a: nat)
    ensures forall r :: SdmType(regs, a, r) ==> SdmDefined(regs, a)
  {
    hide SdmFixedType, SdmVariableTypes, SdmFixedOn, SdmDefault, DefinedOverlap;
  }

  /** An unsplit page lies outside the fixed ranges, and its leaf has the type of its first address. */
  lemma UnsplitStart(regs: Msrs, maxPhyAddr: nat, q: Query, n: nat)
    requires Programmed(regs, maxPhyAddr) && MasksNonZero(regs) && Loaded(regs, q)
    requires n < LARGE_PAGES && n * PAGE_2M < Pow2(maxPhyAddr) && !q.Split(n)
    ensures !(SdmFixedOn(regs) && n * PAGE_2M < ONE_MIB)
    ensures SdmDefined(regs, n * PAGE_2M) ==> SdmType(regs, n * PAGE_2M, LargeType(regs, n))
  {
    hide TableOf, DefaultType, ScanFrom, Query.Split, Loaded, SdmType, SdmDefined, Programmed, Pow2, FixedOn, SdmFixedOn;
    Decoding(regs);
    var base := n * PAGE_2M;
    SplitIs(regs, q, n);
    if FixedOn(regs) && n == 0 { PageZeroSplits(regs); }
    DivModUnique(base, PAGE_2M, n, 0);
    DivModUnique(base, PAGE_4K, n * ENTRIES, 0);
    LargeQueryAtStart(TableOf(regs), DefaultType(regs), base, 0, INVALID);
    if SdmDefined(regs, base) {
      ScanIsSdm(regs, maxPhyAddr, base);
    }
  }

  /** A 2 MiB page lies below 2^maxPhyAddr as soon as one of its addresses does. */
  lemma WholePageBelow(a: nat, maxPhyAddr: nat)
    requires 32 <= maxPhyAddr && a < Pow2(maxPhyAddr)
    ensures (a / PAGE_2M + 1) * PAGE_2M <= Pow2(maxPhyAddr)
  {
    Pow2Values();
    Pow2Add(21, maxPhyAddr - 21);
    hide Pow2;
    var k := Pow2(maxPhyAddr - 21);
    assert a < PAGE_2M * k;
    assert a / PAGE_2M < k;
  }

  lemma InPage(a: nat, n: nat)
    requires InLargePage(a, n * PAGE_2M)
    ensures a / PAGE_2M == n
  {
    DivModUnique(a, PAGE_2M, n, a - n * PAGE_2M);
  }

  /** At every edge of a variable range strictly inside the n-th 2 MiB page, the rule gives the type of the
      page's first address. */
  ghost predicate InnerEdgesAgree(regs: Msrs, n: nat)
  {
    forall r :: SdmType(regs, n * PAGE_2M, r) ==> EdgesHave(regs, n * PAGE_2M, (n + 1) * PAGE_2M, r)
  }

  /** Every address of a page has the type of the page's leaf exactly when the rule defines the type of its
      first address and gives it to the inner edges too. */
  lemma UniformExactly(regs: Msrs, maxPhyAddr: nat, q: Query, n: nat)
    requires Programmed(regs, maxPhyAddr) && MasksNonZero(regs) && Loaded(regs, q)
    requires n < LARGE_PAGES && n * PAGE_2M < Pow2(maxPhyAddr) && !q.Split(n)
    ensures (forall a: nat :: InLargePage(a, n * PAGE_2M) ==> SdmType(regs, a, LargeType(regs, n)))
       <==> SdmDefined(regs, n * PAGE_2M) && InnerEdgesAgree(regs, n)
  {
    hide LargeType, Query.Split, Loaded, SdmType, SdmDefined, Programmed, Pow2, SdmFixedOn, RangeEdge, EdgesHave;
    var base, r := n * PAGE_2M, LargeType(regs, n);
    UnsplitStart(regs, maxPhyAddr, q, n);
    RegionExactly(regs, base, base + PAGE_2M, r);
    TypeIsDefined(regs, base);
    if SdmType(regs, base, r) {
      forall r' | SdmType(regs, base, r')
        ensures r' == r
      {
        SdmUnique(regs, base, r, r');
      }
    }
    assert forall a: nat :: InLargePage(a, base) <==> base <= a < base + PAGE_2M;
  }

  /** All of an unsplit page is right exactly when the rule defines the type of its first address and gives
      it to the edges of variable ranges inside. */
  lemma PageRightExactly(regs: Msrs, maxPhyAddr: nat, s: Supply, m: Memory, n: nat)
    requires Setup(regs, maxPhyAddr, s, m) && n < LARGE_PAGES && (n + 1) * PAGE_2M <= Pow2(maxPhyAddr)
    requires !s.q.Split(n)
    ensures (forall a: u64 :: InLargePage(a, n * PAGE_2M) ==> LeafRight(regs, s, m, a))
       <==> SdmDefined(regs, n * PAGE_2M) && InnerEdgesAgree(regs, n)
  {
    hide LeafRight, LargeType, Query.Split, Loaded, Programmed, Pow2, SdmDefined, SdmType, Supply.Built, InnerEdgesAgree;
    UniformExactly(regs, maxPhyAddr, s.q, n);
    forall a: nat | InLargePage(a, n * PAGE_2M)
      ensures a < U64_SIZE && (LeafRight(regs, s, m, a) <==> SdmType(regs, a, LargeType(regs, n)))
    {
      InPage(a, n);
      LeafRightIs(regs, maxPhyAddr, s, m, a);
    }
  }

  /** The builder splits exactly the pages that the registers cut. */
  lemma SplitExactly(regs: Msrs, maxPhyAddr: nat, q: Query, n: nat)
    requires Programmed(regs, maxPhyAddr) && MasksNonZero(regs) && Loaded(regs, q)
    requires n < LARGE_PAGES && (n + 1) * PAGE_2M <= Pow2(maxPhyAddr)
    ensures q.Split(n) <==> PageCut(regs, n)
  {
    hide Programmed, MasksNonZero, Loaded, Pow2, Query.Split, Scan, TableOf, DefaultType, PageCut;
    SplitIs(regs, q, n);
    NoTypeExactly(regs, maxPhyAddr, n);
  }

  /** The end-to-end theorem with its exact condition, which is about the registers alone: the tree gives
      every physical address below 512 GiB the type of the MTRR rule if and only if the rule defines them
      all and, in every 2 MiB page that is not cut, gives the edges of variable ranges inside the type of
      the page's start. */
  lemma AllTypesCorrectExactly(regs: Msrs, maxPhyAddr: nat, s: Supply, m: Memory)
    requires Setup(regs, maxPhyAddr, s, m)
    ensures (forall a: u64 :: a < PML4_SPAN && a < Pow2(maxPhyAddr) ==> LeafRight(regs, s, m, a))
       <==> (forall a :: 0 <= a < PML4_SPAN && a < Pow2(maxPhyAddr) ==> SdmDefined(regs, a))
            && (forall n :: 0 <= n < LARGE_PAGES && (n + 1) * PAGE_2M <= Pow2(maxPhyAddr) && !PageCut(regs, n)
                  ==> InnerEdgesAgree(regs, n))
  {
    hide LeafRight, Query.Split, Loaded, Programmed, Pow2, InnerEdgesAgree, SdmDefined, Supply.Built, PageCut;
    forall n | 0 <= n < LARGE_PAGES && (n + 1) * PAGE_2M <= Pow2(maxPhyAddr)
      ensures s.q.Split(n) <==> PageCut(regs, n)
      ensures !s.q.Split(n) ==>
                ((forall a: u64 :: InLargePage(a, n * PAGE_2M) ==> LeafRight(regs, s, m, a))
                 <==> SdmDefined(regs, n * PAGE_2M) && InnerEdgesAgree(regs, n))
    {
      SplitExactly(regs, maxPhyAddr, s.q, n);
      if !s.q.Split(n) {
        PageRightExactly(regs, maxPhyAddr, s, m, n);
      }
    }
    forall a: u64 | a < PML4_SPAN && a < Pow2(maxPhyAddr)
      ensures var n := a / PAGE_2M;
              n < LARGE_PAGES && InLargePage(a, n * PAGE_2M) && (n + 1) * PAGE_2M <= Pow2(maxPhyAddr)
      ensures s.q.Split(a / PAGE_2M) ==> (LeafRight(regs, s, m, a) <==> SdmDefined(regs, a))
      ensures LeafRight(regs, s, m, a) ==> SdmDefined(regs, a)
    {
      PageFacts(a);
      ProgrammedWidth(regs, maxPhyAddr);
      WholePageBelow(a, maxPhyAddr);
      LeafRightIs(regs, maxPhyAddr, s, m, a);
      RightIsDefined(regs, s, m, a);
    }
  }

  lemma RightIsDefined(regs: Msrs, s: Supply, m: Memory, a: u64)
    requires Physical(m)
    ensures LeafRight(regs, s, m, a) ==> SdmDefined(regs, a)
  {
    hide SdmType, SdmDefined, Translate;
    TypeIsDefined(regs, a);
  }

  lemma ProgrammedWidth(regs: Msrs, maxPhyAddr: nat)
    requires Programmed(regs, maxPhyAddr)
    ensures 32 <= maxPhyAddr <= 48
  {
    hide SdmFixedType, RangeProgrammed, SdmFixedOn, SdmCount, SdmOn, SdmDefault;
  }

  // ------------------------------------------------------------------ start-up

  /** The query over the table as the initialiser leaves it: the decoded entries, then disabled ones. */
  function QueryOf(regs: Msrs): Query
    requires MasksNonZero(regs)
  {
    var t := TableOf(regs);
    Query(t + seq(MAX_MTRRS - |t|, _ => EMPTY), DefaultType(regs))
  }

  lemma QueryIsLoaded(regs: Msrs, mtrrs: MtrrState)
    requires MasksNonZero(regs) && mtrrs.Valid() && mtrrs.defaultType == DefaultType(regs)
    requires mtrrs.table[..|TableOf(regs)|] == TableOf(regs) && mtrrs.Rest(|TableOf(regs)|)
    ensures Query(mtrrs.table[..], mtrrs.defaultType) == QueryOf(regs) && Loaded(regs, QueryOf(regs))
  {
    hide TableOf, DefaultType, MasksNonZero;
    var t, q := TableOf(regs), QueryOf(regs);
    assert mtrrs.table[..] == q.table;
    assert q.table[..|t|] == t;
  }

  /** `visor_init` and `cpu_init` as far as the page tables go: read the MTRRs, then build the tree
      whose pointer goes into the VMCS.  The registers and the frames are arbitrary, as long as the
      allocator does not run out. */
  method InitEpt(regs: Msrs, mtrrs: MtrrState, builder: EptBuilder, ghost s: Supply, ghost maxPhyAddr: nat)
    requires Programmed(regs, maxPhyAddr) && MasksNonZero(regs)
    requires builder.mtrrs == mtrrs && mtrrs.Valid() && Physical(builder.mem)
    requires s == Supply(builder.frames, builder.used, QueryOf(regs)) && s.Valid()
    modifies mtrrs, mtrrs.table, builder
    ensures Setup(regs, maxPhyAddr, s, builder.mem) && builder.eptp == EptPointer(s.Pml4())
    ensures forall a: u64 :: a < PML4_SPAN && a < Pow2(maxPhyAddr) && SdmDefined(regs, a) && NoVariableBegin(regs, a / PAGE_2M)
              ==> LeafRight(regs, s, builder.mem, a)
  {
    hide Programmed, TableOf, MasksNonZero, DefaultType, Supply.Built, Supply.Valid, QueryOf, Loaded;
    hide NoVariableBegin, SdmType, SdmDefined, Translate, EptPointer, Pow2;
    var _ := mtrrs.InitMtrr(regs);
    QueryIsLoaded(regs, mtrrs);
    builder.InitCore(s);
    forall a: u64 | a < PML4_SPAN && a < Pow2(maxPhyAddr) && SdmDefined(regs, a) && NoVariableBegin(regs, a / PAGE_2M)
      ensures LeafRight(regs, s, builder.mem, a)
    {
      MemoryTypesCorrect(regs, maxPhyAddr, s, builder.mem, a);
    }
  }
}

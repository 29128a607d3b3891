/** Types against the memory really reached.  A 2 MiB leaf leads elsewhere than to its own page, so its
    type may also be compared with the one the MTRR rule gives the host address. */
module EptHost {
  import opened Bits
  import opened Paging
  import opened Mtrr
  import opened MemoryType
  import opened MtrrRule
  import opened MtrrRegion
  import opened MtrrSplit
  import opened EptEntry
  import opened EptBuild
  import opened EptWalk
  import opened EptCorrect

  /** The processor finds, in the leaf for `a`, the type the MTRR rule gives the host address it leads to. */
  ghost predicate HostRight(regs: Msrs, s: Supply, m: Memory, a: u64)
    requires Physical(m)
  {
    var r := Translate(m, EptPointer(s.Pml4()), a);
    r.Mapped? && r.memType < 8 && SdmType(regs, r.address, r.memType)
  }

  lemma HostRightIs(regs: Msrs, maxPhyAddr: nat, s: Supply, m: Memory, a: u64)
    requires Setup(regs, maxPhyAddr, s, m) && a < PML4_SPAN && a < Pow2(maxPhyAddr)
    ensures var n := a / PAGE_2M;
            HostRight(regs, s, m, a) <==>
            if s.q.Split(n) then SdmDefined(regs, a) else SdmType(regs, Target(s, a), LargeType(regs, n))
  {
    hide Translate, EptPointer, Supply.Built, TableOf, DefaultType, Scan, Query.Type, Query.Split;
    hide Loaded, SdmType, SdmDefined, Programmed, Pow2, Proper;
    TranslateIs(s, m, a);
    LeafTypeIs(regs, maxPhyAddr, s, m, a);
    LeafRightIs(regs, maxPhyAddr, s, m, a);
    QueriesValid(regs, maxPhyAddr, a);
  }

  /** The first 2 MiB of the n-th GiB have, at their start and at the edges of variable ranges inside, the
      type of the first address of the n-th 2 MiB page. */
  ghost predicate HostAgrees(regs: Msrs, n: nat)
  {
    forall r :: SdmType(regs, n * PAGE_2M, r) ==>
      SdmType(regs, n * PAGE_1G, r) && EdgesHave(regs, n * PAGE_1G, n * PAGE_1G + PAGE_2M, r)
  }

  lemma HostUniformExactly(regs: Msrs, maxPhyAddr: nat, q: Query, n: nat)
    requires Programmed(regs, maxPhyAddr) && MasksNonZero(regs) && Loaded(regs, q)
    requires n < LARGE_PAGES && n * PAGE_2M < Pow2(maxPhyAddr) && !q.Split(n) && SdmDefined(regs, n * PAGE_2M)
    ensures (forall h: nat :: InLargePage(h, n * PAGE_1G) ==> SdmType(regs, h, LargeType(regs, n))) <==> HostAgrees(regs, n)
  {
    hide LargeType, Query.Split, Loaded, SdmType, SdmDefined, Programmed, Pow2, SdmFixedOn, RangeEdge, EdgesHave;
    var base, r := n * PAGE_1G, LargeType(regs, n);
    UnsplitStart(regs, maxPhyAddr, q, n);
    RegionExactly(regs, base, base + PAGE_2M, r);
    forall r' | SdmType(regs, n * PAGE_2M, r')
      ensures r' == r
    {
      SdmUnique(regs, n * PAGE_2M, r, r');
    }
    assert forall h: nat :: InLargePage(h, base) <==> base <= h < base + PAGE_2M;
  }

  /** One unsplit page: every address in it is given the type of the host memory it reaches exactly when
      that memory, the start of the n-th GiB, has the type of the page's own start at its start and edges. */
  lemma HostPageExactly(regs: Msrs, maxPhyAddr: nat, s: Supply, m: Memory, n: nat)
    requires Setup(regs, maxPhyAddr, s, m) && n < LARGE_PAGES && (n + 1) * PAGE_2M <= Pow2(maxPhyAddr)
    requires !s.q.Split(n) && SdmDefined(regs, n * PAGE_2M)
    ensures (forall a: u64 :: InLargePage(a, n * PAGE_2M) ==> HostRight(regs, s, m, a)) <==> HostAgrees(regs, n)
  {
    hide HostRight, LargeType, Query.Split, Loaded, Programmed, Pow2, SdmDefined, SdmType, Supply.Built, HostAgrees;
    HostUniformExactly(regs, maxPhyAddr, s.q, n);
    forall a: nat | InLargePage(a, n * PAGE_2M)
      ensures a < U64_SIZE && InLargePage(LeafTarget(n, a), n * PAGE_1G)
      ensures HostRight(regs, s, m, a) <==> SdmType(regs, LeafTarget(n, a), LargeType(regs, n))
    {
      DivModUnique(a, PAGE_2M, n, a - n * PAGE_2M);
      HostRightIs(regs, maxPhyAddr, s, m, a);
    }
    forall h: nat | InLargePage(h, n * PAGE_1G)
      ensures var a := n * PAGE_2M + (h - n * PAGE_1G); InLargePage(a, n * PAGE_2M) && LeafTarget(n, a) == h
    {
    }
  }

  /** Where the leaf of the n-th page sends an address of that page. */
  function LeafTarget(n: nat, a: nat): nat
    requires InLargePage(a, n * PAGE_2M)
  {
    n * PAGE_1G + (a - n * PAGE_2M)
  }

  /** Every address below 512 GiB whose host address exists is given the type of that host address if and only
      if the rule defines the type of every address in a page that is cut, and the other pages agree with
      the GiB they lead to. */
  lemma AllHostTypesExactly(regs: Msrs, maxPhyAddr: nat, s: Supply, m: Memory)
    requires Setup(regs, maxPhyAddr, s, m)
    requires forall n :: 0 <= n < LARGE_PAGES && n * PAGE_1G < Pow2(maxPhyAddr) && !PageCut(regs, n)
               ==> SdmDefined(regs, n * PAGE_2M)
    ensures (forall a: u64 :: a < PML4_SPAN && a < Pow2(maxPhyAddr) && Target(s, a) < Pow2(maxPhyAddr)
               ==> HostRight(regs, s, m, a))
       <==> (forall a: nat :: a < PML4_SPAN && a < Pow2(maxPhyAddr) && PageCut(regs, a / PAGE_2M) ==> SdmDefined(regs, a))
            && (forall n :: 0 <= n < LARGE_PAGES && n * PAGE_1G < Pow2(maxPhyAddr) && !PageCut(regs, n) ==> HostAgrees(regs, n))
  {
    hide HostRight, Query.Split, Loaded, Programmed, Pow2, HostAgrees, SdmDefined, Supply.Built, PageCut;
    ProgrammedWidth(regs, maxPhyAddr);
    forall n | 0 <= n < LARGE_PAGES && n * PAGE_1G < Pow2(maxPhyAddr) && !PageCut(regs, n)
      ensures (forall a: u64 :: InLargePage(a, n * PAGE_2M) ==> HostRight(regs, s, m, a)) <==> HostAgrees(regs, n)
      ensures forall a: u64 :: InLargePage(a, n * PAGE_2M) ==> a / PAGE_2M == n && a < PML4_SPAN && a < Pow2(maxPhyAddr)
      ensures forall a: u64 :: InLargePage(a, n * PAGE_2M) ==> Target(s, a) < Pow2(maxPhyAddr)
    {
      HostPageBelow(n, maxPhyAddr);
      SplitExactly(regs, maxPhyAddr, s.q, n);
      HostPageExactly(regs, maxPhyAddr, s, m, n);
      forall a: u64 | InLargePage(a, n * PAGE_2M)
        ensures a / PAGE_2M == n && a % PAGE_2M == a - n * PAGE_2M
      {
        DivModUnique(a, PAGE_2M, n, a - n * PAGE_2M);
      }
    }
    forall a: u64 | a < PML4_SPAN && a < Pow2(maxPhyAddr)
      ensures var n := a / PAGE_2M; n < LARGE_PAGES && InLargePage(a, n * PAGE_2M)
      ensures PageCut(regs, a / PAGE_2M) ==> (HostRight(regs, s, m, a) <==> SdmDefined(regs, a)) && Target(s, a) == a
      ensures !PageCut(regs, a / PAGE_2M) && Target(s, a) < Pow2(maxPhyAddr) ==> a / PAGE_2M * PAGE_1G < Pow2(maxPhyAddr)
    {
      PageFacts(a);
      WholePageBelow(a, maxPhyAddr);
      SplitExactly(regs, maxPhyAddr, s.q, a / PAGE_2M);
      HostRightIs(regs, maxPhyAddr, s, m, a);
    }
  }

  /** If the start of the n-th GiB is below 2^maxPhyAddr, so are its first 2 MiB and the n-th 2 MiB page. */
  lemma HostPageBelow(n: nat, maxPhyAddr: nat)
    requires 32 <= maxPhyAddr && n * PAGE_1G < Pow2(maxPhyAddr)
    ensures n * PAGE_1G + PAGE_2M <= Pow2(maxPhyAddr) && (n + 1) * PAGE_2M <= Pow2(maxPhyAddr)
  {
    WholePageBelow(n * PAGE_1G, maxPhyAddr);
    hide Pow2;
    DivModUnique(n * PAGE_1G, PAGE_2M, n * ENTRIES, 0);
  }
}

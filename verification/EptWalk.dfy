/** Reading the tree back: the hypervisor's own walk (`ept_resolve_entries`) and the processor's
    translation (Intel SDM Vol. 3C section 28.3.2), against what the builder wrote. */
module EptWalk {
  import opened Wrappers
  import opened Bits
  import opened Paging
  import opened EptEntry
  import opened EptBuild

  /** A pointer to one word of one table. */
  datatype EntryRef = EntryRef(table: frame, index: nat)

  /** The four out-parameters; `pt` is None for the null pointer. */
  datatype Walk = Walk(pml4: EntryRef, pdpt: EntryRef, pd: EntryRef, pt: Option<EntryRef>)

  ghost predicate InMemory(m: Memory, r: EntryRef) { Physical(m) && r.index < ENTRIES }

  function Load(m: Memory, r: EntryRef): u64
    requires InMemory(m, r)
  {
    m[r.table][r.index]
  }

  /** `ept_resolve_entries`. */
  function ResolveEntries(m: Memory, eptp: u64, address: u64): Walk
    requires Physical(m)
  {
    var x := AddressToPt(address);
    var pml4e := EntryRef(FrameOf(eptp), x.pml4);
    var pdpte := EntryRef(FrameOf(Load(m, pml4e)), x.pdpt);
    var pde := EntryRef(FrameOf(Load(m, pdpte)), x.pd);
    if IsLarge(Load(m, pde)) then Walk(pml4e, pdpte, pde, None)
    else Walk(pml4e, pdpte, pde, Some(EntryRef(FrameOf(Load(m, pde)), x.pt)))
  }

  /** The walk the builder intends for an address in the n-th 2 MiB page. */
  function IntendedWalk(s: Supply, address: nat): Walk
    requires address < PML4_SPAN
  {
    var n := address / PAGE_2M;
    Walk(EntryRef(s.Pml4(), 0), EntryRef(s.Pdpt(), n / ENTRIES), EntryRef(s.Pd(n / ENTRIES), n % ENTRIES),
         if s.q.Split(n) then Some(EntryRef(s.Pt(n), address / PAGE_4K % ENTRIES)) else None)
  }

  /** The indices of an address below 512 GiB. */
  lemma LowIndices(address: u64)
    requires address < PML4_SPAN
    ensures var n := address / PAGE_2M;
            AddressToPt(address) == Indices(0, n / ENTRIES, n % ENTRIES, address / PAGE_4K % ENTRIES)
    ensures address / PAGE_2M < LARGE_PAGES
  {
    DivDiv(address, PAGE_2M, ENTRIES);
  }

  /** The words the builder put where the intended walk leads. */
  lemma IntendedWords(s: Supply, m: Memory, address: u64)
    requires Physical(m) && s.Built(m) && address < PML4_SPAN
    ensures var n := address / PAGE_2M;
            var w := IntendedWalk(s, address);
            && Load(m, w.pml4) == PointerEntry(s.Pdpt())
            && Load(m, w.pdpt) == PointerEntry(s.Pd(n / ENTRIES))
            && Load(m, w.pd) == s.PdWord(n)
            && (w.pt.Some? ==> Load(m, w.pt.value) == s.q.SmallWord(n, address / PAGE_4K % ENTRIES))
  {
    hide PointerEntry, AddressToPt, Supply.Built, Supply.PdWord, Query.SmallWord, Supply.Pd, Supply.Pt, Query.Split;
    var n := address / PAGE_2M;
    LowIndices(address);
    BuiltRoot(s, m, n / ENTRIES);
    BuiltPd(s, m, n / ENTRIES, n % ENTRIES);
    if s.q.Split(n) { BuiltPt(s, m, n, address / PAGE_4K % ENTRIES); }
  }

  lemma BuiltRoot(s: Supply, m: Memory, i: nat)
    requires Physical(m) && s.Built(m) && i < ENTRIES
    ensures m[s.Pml4()][0] == PointerEntry(s.Pdpt()) && m[s.Pdpt()][i] == PointerEntry(s.Pd(i))
  {
    hide PointerEntry, Supply.PdsDone, Supply.PtsDone, Supply.Pd;
  }

  lemma BuiltPd(s: Supply, m: Memory, i: nat, j: nat)
    requires Physical(m) && s.Built(m) && i < ENTRIES && j < ENTRIES
    ensures m[s.Pd(i)][j] == s.PdWord(i * ENTRIES + j)
  {
    hide PointerEntry, Supply.PtsDone, Supply.PdWord, Supply.Pd, Supply.Pml4Words, PdptWords;
    assert m[s.Pd(i)] == PdWords(s, i);
  }

  lemma BuiltPt(s: Supply, m: Memory, n: nat, k: nat)
    requires Physical(m) && s.Built(m) && n < LARGE_PAGES && k < ENTRIES && s.q.Split(n)
    ensures m[s.Pt(n)][k] == s.q.SmallWord(n, k)
  {
    hide PointerEntry, Supply.PdsDone, Query.SmallWord, Supply.Pt, Supply.Pml4Words, PdptWords, Query.Split;
    assert m[s.Pt(n)] == PtWords(s.q, n);
  }

  /** The hypervisor's walk refines the build: for every address below 512 GiB it returns exactly
      the entries written for that address, with no PT entry exactly for an unsplit 2 MiB page. */
  lemma WalkRefinesBuild(s: Supply, m: Memory, address: u64)
    requires Physical(m) && s.Built(m) && address < PML4_SPAN
    ensures ResolveEntries(m, EptPointer(s.Pml4()), address) == IntendedWalk(s, address)
  {
    hide AddressToPt, EptPointer, PointerEntry, FrameOf, IsLarge, Supply.PdWord, Supply.Pd, Supply.Pt, Supply.Built, Accessible;
    var n := address / PAGE_2M;
    LowIndices(address);
    IntendedWords(s, m, address);
    EptPointerReads(s.Pml4());
    PointerReads(s.Pdpt());
    PointerReads(s.Pd(n / ENTRIES));
    PdWordReads(s, n);
  }

  /** What a PD entry of the tree says. */
  lemma PdWordReads(s: Supply, n: nat)
    requires n < LARGE_PAGES
    ensures var w := s.PdWord(n);
            && Accessible(w)
            && (IsLarge(w) <==> !s.q.Split(n))
            && (s.q.Split(n) ==> FrameOf(w) == s.Pt(n))
            && (!s.q.Split(n) ==> LargeFrameOf(w) == n * ENTRIES && LeafType(w) == s.q.Type(n * PAGE_2M, PAGE_2M) % 8)
  {
    hide PointerEntry, LargeEntry, FrameOf, LargeFrameOf, LeafType, IsLarge, Accessible, Supply.Pt, Query.Type;
    if s.q.Split(n) {
      PointerReads(s.Pt(n));
    } else {
      assert n * PAGE_2M / PAGE_4K == n * ENTRIES;
      LargeReads(n * ENTRIES, s.q.Type(n * PAGE_2M, PAGE_2M));
    }
  }

  /** Beyond 512 GiB the walk meets an all-zero PML4 entry. */
  lemma HighAddressesUnmapped(s: Supply, m: Memory, address: u64)
    requires Physical(m) && s.Built(m) && PML4_SPAN <= address < ADDRESS_SPACE
    ensures Load(m, ResolveEntries(m, EptPointer(s.Pml4()), address).pml4) == 0
    ensures Translate(m, EptPointer(s.Pml4()), address) == Violation
  {
    hide EptPointer, PointerEntry, FrameOf, Present, PointerAccepted, Supply.PdsDone, Supply.PtsDone;
    EptPointerReads(s.Pml4());
    ZeroEntryAbsent();
    assert 0 < address / PML4_SPAN % ENTRIES < ENTRIES;
  }

  // ---------------------------------------------------------------- translation

  datatype Translation = Violation | Mapped(address: nat, memType: nat)

  /** The processor's EPT walk, from a pointer that VM entry accepts. */
  function Translate(m: Memory, eptp: u64, address: u64): Translation
    requires Physical(m)
  {
    if !PointerAccepted(eptp) then Violation else
    var x := AddressToPt(address);
    var pml4e := Load(m, EntryRef(FrameOf(eptp), x.pml4));
    if !Present(pml4e) then Violation else
    var pdpte := Load(m, EntryRef(FrameOf(pml4e), x.pdpt));
    if !Present(pdpte) then Violation else
    if IsLarge(pdpte) then Mapped(pdpte / PAGE_1G % 0x4_0000 * PAGE_1G + address % PAGE_1G, LeafType(pdpte)) else
    var pde := Load(m, EntryRef(FrameOf(pdpte), x.pd));
    if !Present(pde) then Violation else
    if IsLarge(pde) then Mapped(LargeFrameOf(pde) * PAGE_2M + address % PAGE_2M, LeafType(pde)) else
    var pte := Load(m, EntryRef(FrameOf(pde), x.pt));
    if !Present(pte) then Violation else
    Mapped(FrameOf(pte) * PAGE_4K + address % PAGE_4K, LeafType(pte))
  }

  /** Where every address below 512 GiB goes, and with which type: through a 4 KiB leaf to itself,
      through a 2 MiB leaf to the same offset in the n-th GiB. */
  lemma TranslateIs(s: Supply, m: Memory, address: u64)
    requires Physical(m) && s.Built(m) && address < PML4_SPAN
    ensures var n := address / PAGE_2M;
            Translate(m, EptPointer(s.Pml4()), address) ==
            if s.q.Split(n) then Mapped(address, s.q.Type(PageOf(address), PAGE_4K) % 8)
            else Mapped(n * PAGE_1G + address % PAGE_2M, s.q.Type(n * PAGE_2M, PAGE_2M) % 8)
  {
    hide AddressToPt, EptPointer, PointerEntry, FrameOf, LargeFrameOf, LeafType, IsLarge, PointerAccepted;
    hide Supply.PdWord, Supply.Pd, Supply.Pt, Supply.Built, Query.SmallWord, Query.Type;
    var n := address / PAGE_2M;
    LowIndices(address);
    IntendedWords(s, m, address);
    EptPointerReads(s.Pml4());
    PointerReads(s.Pdpt());
    PointerReads(s.Pd(n / ENTRIES));
    PdWordReads(s, n);
    SmallWordReads(s.q, address);
  }

  lemma SmallWordReads(q: Query, address: u64)
    requires address < PML4_SPAN
    ensures address / PAGE_2M < LARGE_PAGES
    ensures var w := q.SmallWord(address / PAGE_2M, address / PAGE_4K % ENTRIES);
            Accessible(w) && FrameOf(w) == address / PAGE_4K && LeafType(w) == q.Type(PageOf(address), PAGE_4K) % 8
  {
    hide SmallLeaf, FrameOf, LeafType, IsLarge, Accessible, Query.Type;
    var n, k := address / PAGE_2M, address / PAGE_4K % ENTRIES;
    DivDiv(address, PAGE_4K, ENTRIES);
    assert n * PAGE_2M + k * PAGE_4K == PageOf(address);
    SmallLeafReads(PageOf(address), q.Type(PageOf(address), PAGE_4K));
  }

  /** Identity translation holds exactly for the split pages and for the first 2 MiB. */
  lemma IdentityExactly(s: Supply, m: Memory, address: u64)
    requires Physical(m) && s.Built(m) && address < PML4_SPAN
    ensures var t := Translate(m, EptPointer(s.Pml4()), address);
            t.Mapped? && (t.address == address <==> s.q.Split(address / PAGE_2M) || address < PAGE_2M)
  {
    TranslateIs(s, m, address);
    hide Translate, EptPointer, Supply.Built, Query.Type, Query.Split;
    GiBFixedPoint(address, address / PAGE_2M, address % PAGE_2M);
  }

  lemma GiBFixedPoint(a: nat, n: nat, r: nat)
    requires a == n * PAGE_2M + r && r < PAGE_2M
    ensures n * PAGE_1G + r == a <==> a < PAGE_2M
  {
  }

  /** A 2 MiB leaf translates its page to itself exactly when its frame field holds the address
      shifted by 21; what the builder stores, the address shifted by 12, fits the field. */
  lemma LargeFrameExactly(address: u64, f: nat, memType: nat)
    requires address < PML4_SPAN && f < LARGE_FRAME_LIMIT
    ensures LargeFrameOf(LargeEntry(f, memType)) * PAGE_2M + address % PAGE_2M == address <==> f == address / PAGE_2M
    ensures (address - address % PAGE_2M) / PAGE_4K < LARGE_FRAME_LIMIT
  {
    LargeReads(f, memType);
    hide LargeEntry, LargeFrameOf;
  }

  // ------------------------------------------------------------------- aliasing

  /** Where an address goes: the arithmetic of `TranslateIs`. */
  function Target(s: Supply, a: nat): nat
    requires a / PAGE_2M < LARGE_PAGES
  {
    if s.q.Split(a / PAGE_2M) then a else a / PAGE_2M * PAGE_1G + a % PAGE_2M
  }

  /** The n-th GiB starts with a split page although the n-th 2 MiB page is not split. */
  ghost predicate Clash(s: Supply, n: nat)
  {
    1 <= n < ENTRIES && !s.q.Split(n) && s.q.Split(n * ENTRIES)
  }

  /** Two addresses meet only if one is in a split page and the other in the unsplit page whose
      number is the GiB of the first. */
  lemma MeetingSplit(s: Supply, a: nat, b: nat)
    requires a / PAGE_2M < LARGE_PAGES && b / PAGE_2M < LARGE_PAGES && Target(s, a) == Target(s, b)
    requires s.q.Split(a / PAGE_2M) && !s.q.Split(b / PAGE_2M)
    ensures Clash(s, b / PAGE_2M)
  {
    hide Query.Split;
    var l := b / PAGE_2M;
    DivModUnique(a, PAGE_2M, l * ENTRIES, b % PAGE_2M);
  }

  lemma UnsplitTargets(s: Supply, a: nat, b: nat)
    requires a / PAGE_2M < LARGE_PAGES && b / PAGE_2M < LARGE_PAGES && Target(s, a) == Target(s, b)
    requires !s.q.Split(a / PAGE_2M) && !s.q.Split(b / PAGE_2M)
    ensures a == b
  {
    hide Query.Split;
    var n, l := a / PAGE_2M, b / PAGE_2M;
    DivModUnique(n * PAGE_1G + a % PAGE_2M, PAGE_1G, n, a % PAGE_2M);
    DivModUnique(l * PAGE_1G + b % PAGE_2M, PAGE_1G, l, b % PAGE_2M);
  }

  lemma TargetsMeet(s: Supply, a: nat, b: nat) returns (n: nat)
    requires a / PAGE_2M < LARGE_PAGES && b / PAGE_2M < LARGE_PAGES && a != b && Target(s, a) == Target(s, b)
    ensures Clash(s, n)
  {
    hide Query.Split, Clash;
    if s.q.Split(a / PAGE_2M) {
      n := b / PAGE_2M;
      MeetingSplit(s, a, b);
    } else if s.q.Split(b / PAGE_2M) {
      n := a / PAGE_2M;
      MeetingSplit(s, b, a);
    } else {
      n := 0;
      UnsplitTargets(s, a, b);
    }
  }

  /** Distinct guest addresses reach distinct host addresses exactly when no GiB starts with a split
      page while the 2 MiB page of the same number is mapped by one leaf. */
  lemma NoAliasingExactly(s: Supply, m: Memory)
    requires Physical(m) && s.Built(m)
    ensures (forall a: u64, b: u64 :: a < PML4_SPAN && b < PML4_SPAN && a != b ==>
               Translate(m, EptPointer(s.Pml4()), a) != Violation && Translate(m, EptPointer(s.Pml4()), b) != Violation &&
               Translate(m, EptPointer(s.Pml4()), a).address != Translate(m, EptPointer(s.Pml4()), b).address)
       <==> (forall n: nat :: !Clash(s, n))
  {
    hide Translate, EptPointer, Supply.Built, Query.Split, Query.Type;
    var p := EptPointer(s.Pml4());
    forall a: u64 | a < PML4_SPAN
      ensures Translate(m, p, a).Mapped? && a / PAGE_2M < LARGE_PAGES && Translate(m, p, a).address == Target(s, a)
    {
      TranslateIs(s, m, a);
    }
    if forall n: nat :: !Clash(s, n) {
      forall a: u64, b: u64 | a < PML4_SPAN && b < PML4_SPAN && a != b
        ensures Translate(m, p, a).address != Translate(m, p, b).address
      {
        if Target(s, a) == Target(s, b) {
          var n := TargetsMeet(s, a, b);
        }
      }
    } else {
      var n: nat :| Clash(s, n);
      var a, b := n * PAGE_2M, n * PAGE_1G;
      DivModUnique(a, PAGE_2M, n, 0);
      DivModUnique(b, PAGE_2M, n * ENTRIES, 0);
      assert Target(s, a) == Target(s, b);
      assert Translate(m, p, a).address == Translate(m, p, b).address;
    }
  }
}

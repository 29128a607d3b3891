/** `ept_init_core` of hypervisor/ept.cc: three nested loops that allocate and fill a 4-level
    table tree for the first 512 GiB, in physical memory. */
module EptBuild {
  import opened Bits
  import opened Paging
  import opened Mtrr
  import opened MemoryType
  import opened EptEntry

  /** 2 MiB pages below 512 GiB. */
  const LARGE_PAGES: nat := ENTRIES * ENTRIES

  type frame = x: int | 0 <= x < FRAME_LIMIT

  function ZeroFrame(): (words: seq<u64>) { seq(ENTRIES, _ => 0) }

  /** Physical memory: the 512 words of each page frame of the 48-bit address space. */
  type Memory = map<frame, seq<u64>>

  ghost predicate Physical(m: Memory)
  {
    forall f: frame :: f in m && |m[f]| == ENTRIES
  }

  /** Memory after one word is written. */
  function Poke(m: Memory, f: frame, index: nat, w: u64): (r: Memory)
    requires f in m && index < |m[f]|
  {
    var words: seq<u64> := m[f][index := w];
    m[f := words]
  }

  /** What the memory-type query answers: the table it scans and the default type. */
  datatype Query = Query(table: seq<Entry>, default: u8) {
    function Type(address: u64, size: u64): u8 { Scan(table, default, address, size) }

    /** The n-th 2 MiB page has no single type, so its PD entry is split. */
    predicate Split(n: nat)
      requires n < LARGE_PAGES
    {
      Type(n * PAGE_2M, PAGE_2M) == INVALID
    }

    /** Number of split PD entries among the first n. */
    function Splits(n: nat): nat
      requires n <= LARGE_PAGES
    {
      if n == 0 then 0 else Splits(n - 1) + if Split(n - 1) then 1 else 0
    }

    lemma {:induction false} SplitsMonotone(m: nat, n: nat)
      requires m <= n <= LARGE_PAGES
      ensures Splits(m) <= Splits(n)
      ensures m < n && Split(m) ==> Splits(m) < Splits(n)
      decreases n - m
    {
      if m < n {
        SplitsMonotone(m + 1, n);
      }
    }

    function SmallWord(n: nat, k: nat): u64
      requires n < LARGE_PAGES && k < ENTRIES
    {
      var a := n * PAGE_2M + k * PAGE_4K;
      SmallLeaf(a, Type(a, PAGE_4K))
    }
  }

  /** The page table of a split PD entry. */
  function PtWords(q: Query, n: nat): (words: seq<u64>)
    requires n < LARGE_PAGES
  {
    seq<u64>(ENTRIES, k requires 0 <= k < ENTRIES => q.SmallWord(n, k))
  }

  /** Where the frames come from: `ldr_malloc(0x1000)` hands out `frames[start]`, `frames[start + 1]`
      and so on, never the same frame twice. */
  datatype Supply = Supply(frames: seq<frame>, start: nat, q: Query) {
    ghost predicate Valid()
    {
      && (forall i, j :: 0 <= i < j < |frames| ==> frames[i] != frames[j])
      && start + Total() <= |frames|
    }

    /** Frames the whole build takes. */
    function Total(): nat { 2 + ENTRIES + q.Splits(LARGE_PAGES) }

    function At(slot: nat): frame { if start + slot < |frames| then frames[start + slot] else 0 }

    function Pml4(): frame { At(0) }

    function Pdpt(): frame { At(1) }

    /** Position in the allocation order of the i-th page directory. */
    function PdSlot(i: nat): nat
      requires i <= ENTRIES
    {
      2 + i + q.Splits(i * ENTRIES)
    }

    /** Position in the allocation order of the page table of the n-th 2 MiB page, if it is split. */
    function PtSlot(n: nat): nat
      requires n < LARGE_PAGES
    {
      3 + n / ENTRIES + q.Splits(n)
    }

    function Pd(i: nat): frame
      requires i < ENTRIES
    {
      At(PdSlot(i))
    }

    function Pt(n: nat): frame
      requires n < LARGE_PAGES
    {
      At(PtSlot(n))
    }

    function PdWord(n: nat): u64
      requires n < LARGE_PAGES
    {
      if q.Split(n) then PointerEntry(Pt(n)) else LargeLeaf(n * PAGE_2M, q.Type(n * PAGE_2M, PAGE_2M))
    }

    function Pml4Words(): (words: seq<u64>)
    {
      [PointerEntry(Pdpt())] + ZeroFrame()[1..]
    }

    /** Distinct slots hold distinct frames. */
    lemma SlotsDistinct(x: nat, y: nat)
      requires Valid() && x < Total() && y < Total() && x != y
      ensures At(x) != At(y)
    {
    }

    /** Allocation order: a directory comes before the tables of its own entries... */
    lemma PdBeforePt(i: nat, n: nat)
      requires i < ENTRIES && n < LARGE_PAGES && i <= n / ENTRIES
      ensures PdSlot(i) < PtSlot(n)
    {
      q.SplitsMonotone(i * ENTRIES, n);
    }

    /** ... and after the tables of all earlier directories. */
    lemma PtBeforePd(n: nat, i: nat)
      requires i <= ENTRIES && n < LARGE_PAGES && n / ENTRIES < i && q.Split(n)
      ensures PtSlot(n) < PdSlot(i)
    {
      q.SplitsMonotone(n, i * ENTRIES);
    }

    lemma PtBeforePt(n: nat, n': nat)
      requires n < n' < LARGE_PAGES && q.Split(n)
      ensures PtSlot(n) < PtSlot(n')
    {
      q.SplitsMonotone(n, n');
    }

    lemma PdBeforePd(i: nat, i': nat)
      requires i < i' <= ENTRIES
      ensures PdSlot(i) < PdSlot(i')
    {
      q.SplitsMonotone(i * ENTRIES, i' * ENTRIES);
    }

    lemma PdInRange(i: nat)
      requires i < ENTRIES
      ensures 1 < PdSlot(i) < Total()
    {
      PdBeforePd(i, ENTRIES);
      assert ENTRIES * ENTRIES == LARGE_PAGES;
    }

    lemma PtInRange(n: nat)
      requires n < LARGE_PAGES && q.Split(n)
      ensures 2 < PtSlot(n) < Total()
    {
      PtBeforePd(n, ENTRIES);
      assert ENTRIES * ENTRIES == LARGE_PAGES;
    }

    lemma PdSlotEnds()
      ensures PdSlot(0) == 2 && PdSlot(ENTRIES) == Total()
    {
      assert ENTRIES * ENTRIES == LARGE_PAGES;
    }

    // ------------------------------------------------------- what has been built

    /** The page tables of all split PD entries below n are complete. */
    ghost predicate PtsDone(m: Memory, n: nat)
      requires Physical(m) && n <= LARGE_PAGES
    {
      forall l :: 0 <= l < n && q.Split(l) ==> m[Pt(l)] == PtWords(q, l)
    }

    /** The first i page directories are complete. */
    ghost predicate PdsDone(m: Memory, i: nat)
      requires Physical(m) && i <= ENTRIES
    {
      forall l :: 0 <= l < i ==> m[Pd(l)] == PdWords(this, l)
    }

    /** Nothing but the first `slots` frames handed out has changed. */
    ghost predicate Untouched(m: Memory, before: Memory, slots: nat)
      requires Physical(m) && Physical(before)
    {
      forall f: frame :: (forall x :: 0 <= x < slots ==> f != At(x)) ==> m[f] == before[f]
    }

    /** The frame is neither directory i nor the table of one of its first j entries. */
    ghost predicate NotInEntries(f: frame, i: nat, j: nat)
      requires i < ENTRIES && j <= ENTRIES
    {
      f != Pd(i) && forall n :: i * ENTRIES <= n < i * ENTRIES + j && q.Split(n) ==> f != Pt(n)
    }

    ghost predicate NotInPd(f: frame, i: nat)
      requires i < ENTRIES
    {
      NotInEntries(f, i, ENTRIES)
    }

    /** Nothing has changed but the PDPT, directory i and the tables of its entries. */
    ghost predicate OnlyRound(m: Memory, before: Memory, i: nat)
      requires Physical(m) && Physical(before) && i < ENTRIES
    {
      forall f: frame :: f != Pdpt() && NotInPd(f, i) ==> m[f] == before[f]
    }

    /** After i rounds of the outer loop, from memory `start`: the root, i PDPT entries, i directories with
        the tables of their entries, and no other frame changed. */
    ghost predicate Progress(m: Memory, start: Memory, i: nat)
      requires Physical(m) && Physical(start) && i <= ENTRIES
    {
      && m[Pml4()] == Pml4Words()
      && (forall l :: 0 <= l < i ==> m[Pdpt()][l] == PointerEntry(Pd(l)))
      && PdsDone(m, i) && PtsDone(m, i * ENTRIES)
      && Untouched(m, start, PdSlot(i))
    }

    lemma ProgressBegins(m: Memory, start: Memory)
      requires Physical(m) && Physical(start) && m[Pml4()] == Pml4Words() && Untouched(m, start, 2)
      ensures PdSlot(0) == 2 && Progress(m, start, 0)
    {
      hide PointerEntry, Query.Split;
    }

    /** All rounds done is the finished tree. */
    lemma ProgressEnds(m: Memory, start: Memory)
      requires Physical(m) && Physical(start) && Progress(m, start, ENTRIES)
      ensures PdSlot(ENTRIES) == Total() && Built(m) && Untouched(m, start, Total())
    {
      hide PointerEntry, PdWords, PtWords, Query.Split, Query.Splits;
      PdSlotEnds();
      assert m[Pdpt()] == PdptWords(this);
    }

    /** The finished tree. */
    ghost predicate Built(m: Memory)
      requires Physical(m)
    {
      m[Pml4()] == Pml4Words() && m[Pdpt()] == PdptWords(this) && PdsDone(m, ENTRIES) && PtsDone(m, LARGE_PAGES)
    }
  }

  function PdWords(s: Supply, i: nat): (words: seq<u64>)
    requires i < ENTRIES
  {
    seq<u64>(ENTRIES, j requires 0 <= j < ENTRIES => s.PdWord(i * ENTRIES + j))
  }

  function PdptWords(s: Supply): (words: seq<u64>)
  {
    seq<u64>(ENTRIES, i requires 0 <= i < ENTRIES => PointerEntry(s.Pd(i)))
  }

  // --------------------------------------------------------------------- code

  class EptBuilder {
    const mtrrs: MtrrState
    const frames: seq<frame>
    var mem: Memory
    var used: nat
    var eptp: u64

    constructor (mtrrs: MtrrState, frames: seq<frame>, mem: Memory)
      ensures this.mtrrs == mtrrs && this.frames == frames && this.mem == mem && used == 0
    {
      this.mtrrs, this.frames, this.mem, used, eptp := mtrrs, frames, mem, 0, 0;
    }

    ghost function Q(): Query
      reads mtrrs, mtrrs.table
    {
      Query(mtrrs.table[..], mtrrs.defaultType)
    }

    ghost predicate Ready()
      reads this, mtrrs, mtrrs.table
    {
      mtrrs.Valid() && Physical(mem)
    }

    /** `ldr_malloc(0x1000)`. */
    method Malloc() returns (f: frame)
      requires used < |frames|
      modifies this`used
      ensures f == frames[old(used)] && used == old(used) + 1
    {
      f := frames[used];
      used := used + 1;
    }

    method Clear(f: frame)
      requires Ready()
      modifies this`mem
      ensures Physical(mem) && mem == old(mem)[f := ZeroFrame()]
    {
      mem := mem[f := ZeroFrame()];
    }

    method Store(f: frame, index: nat, w: u64)
      requires Ready() && index < ENTRIES
      modifies this`mem
      ensures Physical(mem) && mem == Poke(old(mem), f, index, w)
    {
      mem := Poke(mem, f, index, w);
    }

    /** The innermost loop: the page table of the split PD entry (i, j). */
    method FillPt(pt: frame, i: nat, j: nat)
      requires Ready() && i < ENTRIES && j < ENTRIES
      modifies this`mem
      ensures Physical(mem) && mem == old(mem)[pt := PtWords(Q(), i * ENTRIES + j)]
    {
      hide SmallLeaf, Scan;
      ghost var n := i * ENTRIES + j;
      ghost var q := Q();
      var k := 0;
      while k < ENTRIES
        invariant k <= ENTRIES && Physical(mem)
        invariant forall f: frame :: f != pt ==> mem[f] == old(mem)[f]
        invariant forall l :: 0 <= l < k ==> mem[pt][l] == q.SmallWord(n, l)
      {
        PackIsFlat(Indices(0, i, j, k));
        var address := PtToAddress(0, i, j, k);
        assert address == n * PAGE_2M + k * PAGE_4K;
        var memType := GetMemoryType(mtrrs, address, PAGE_4K);
        var w := PackSmallLeaf(address, memType);
        Store(pt, k, w);
        k := k + 1;
      }
      assert mem[pt] == PtWords(q, n);
      assert mem == old(mem)[pt := PtWords(q, n)];
    }

    ghost predicate Building(s: Supply)
      reads this, mtrrs, mtrrs.table
    {
      Ready() && s.Valid() && s.frames == frames && s.q == Q()
    }

    /** The body of the middle loop: PD entry (i, j), with its page table if it is split. */
    method FillPdEntry(pd: frame, i: nat, j: nat, ghost s: Supply)
      requires Building(s) && i < ENTRIES && j < ENTRIES && pd == s.Pd(i)
      requires used == s.start + s.PtSlot(i * ENTRIES + j)
      requires forall l :: 0 <= l < j ==> mem[pd][l] == s.PdWord(i * ENTRIES + l)
      requires s.PtsDone(mem, i * ENTRIES + j)
      modifies this`mem, this`used
      ensures Physical(mem) && used == s.start + 3 + i + s.q.Splits(i * ENTRIES + j + 1)
      ensures forall l :: 0 <= l <= j ==> mem[pd][l] == s.PdWord(i * ENTRIES + l)
      ensures s.PtsDone(mem, i * ENTRIES + j + 1)
      ensures forall f: frame :: f != pd && !(s.q.Split(i * ENTRIES + j) && f == s.Pt(i * ENTRIES + j)) ==> mem[f] == old(mem)[f]
    {
      hide SmallLeaf, LargeLeaf, PointerEntry, Scan, PtWords;
      ghost var n := i * ENTRIES + j;
      PackIsFlat(Indices(0, i, j, 0));
      var address := PtToAddress(0, i, j, 0);
      assert address == n * PAGE_2M;
      var memType := GetMemoryType(mtrrs, address, PAGE_2M);
      if memType != INVALID {
        var w := PackLargeLeaf(address, memType);
        Store(pd, j, w);
      } else {
        s.PtInRange(n);
        var pts := Malloc();
        assert pts == s.Pt(n);
        Clear(pts);
        var w := PackPointer(pts);
        Store(pd, j, w);
        FillPt(pts, i, j);
        s.PdBeforePt(i, n);
        s.SlotsDistinct(s.PdSlot(i), s.PtSlot(n));
      }
      KeepPts(s, old(mem), i, n);
    }

    /** Writing the directory and a new page table leaves the finished page tables alone. */
    lemma KeepPts(s: Supply, before: Memory, i: nat, n: nat)
      requires Building(s) && Physical(before) && i < ENTRIES && n < LARGE_PAGES && i == n / ENTRIES
      requires s.PtsDone(before, n)
      requires forall f: frame :: f != s.Pd(i) && !(s.q.Split(n) && f == s.Pt(n)) ==> mem[f] == before[f]
      ensures s.PtsDone(mem, n)
    {
      forall l | 0 <= l < n && s.q.Split(l)
        ensures mem[s.Pt(l)] == PtWords(s.q, l)
      {
        s.PtInRange(l);
        s.PdInRange(i);
        if l / ENTRIES < i { s.PtBeforePd(l, i); } else { s.PdBeforePt(i, l); }
        s.SlotsDistinct(s.PtSlot(l), s.PdSlot(i));
        if s.q.Split(n) {
          s.PtInRange(n);
          s.PtBeforePt(l, n);
          s.SlotsDistinct(s.PtSlot(l), s.PtSlot(n));
        }
      }
    }

    /** The middle loop: directory i. */
    method FillPd(pd: frame, i: nat, ghost s: Supply)
      requires Building(s) && i < ENTRIES && pd == s.Pd(i)
      requires used == s.start + s.PdSlot(i) + 1 && s.PtsDone(mem, i * ENTRIES)
      modifies this`mem, this`used
      ensures Physical(mem) && used == s.start + s.PdSlot(i + 1)
      ensures mem[pd] == PdWords(s, i) && s.PtsDone(mem, (i + 1) * ENTRIES)
      ensures forall f: frame :: s.NotInPd(f, i) ==> mem[f] == old(mem)[f]
    {
      hide PtWords, Scan, PointerEntry, LargeLeaf;
      var j := 0;
      while j < ENTRIES
        invariant j <= ENTRIES && Physical(mem)
        invariant used == s.start + 3 + i + s.q.Splits(i * ENTRIES + j)
        invariant forall l :: 0 <= l < j ==> mem[pd][l] == s.PdWord(i * ENTRIES + l)
        invariant s.PtsDone(mem, i * ENTRIES + j)
        invariant forall f: frame :: s.NotInEntries(f, i, j) ==> mem[f] == old(mem)[f]
      {
        FillPdEntry(pd, i, j, s);
        j := j + 1;
      }
      assert mem[pd] == PdWords(s, i);
    }

    /** Frames of the tree that directory i does not write: everything but the directory itself
        and the tables of its own entries. */
    lemma OutsidePd(s: Supply, x: nat, i: nat)
      requires s.Valid() && i < ENTRIES && x < s.PdSlot(i)
      ensures s.PdSlot(i) < s.Total() && s.NotInPd(s.At(x), i)
    {
      s.PdInRange(i);
      s.SlotsDistinct(x, s.PdSlot(i));
      forall n | i * ENTRIES <= n < (i + 1) * ENTRIES && s.q.Split(n)
        ensures s.At(x) != s.Pt(n)
      {
        s.PtInRange(n);
        s.PdBeforePt(i, n);
        s.SlotsDistinct(x, s.PtSlot(n));
      }
    }

    /** Clearing the new directory leaves everything completed before it alone. */
    lemma KeepAcrossClear(s: Supply, before: Memory, i: nat)
      requires Building(s) && Physical(before) && i < ENTRIES
      requires s.PtsDone(before, i * ENTRIES)
      requires forall f: frame :: f != s.Pd(i) && f != s.Pdpt() ==> mem[f] == before[f]
      ensures s.PtsDone(mem, i * ENTRIES)
    {
      forall l | 0 <= l < i * ENTRIES && s.q.Split(l)
        ensures mem[s.Pt(l)] == PtWords(s.q, l)
      {
        s.PtInRange(l);
        s.PtBeforePd(l, i);
        OutsidePd(s, s.PtSlot(l), i);
        s.SlotsDistinct(s.PtSlot(l), 1);
      }
    }

    /** What one round of the outer loop writes, seen from the frames of earlier rounds. */
    lemma KeepAcrossRound(s: Supply, before: Memory, i: nat)
      requires Building(s) && Physical(before) && i < ENTRIES
      requires s.PdsDone(before, i) && mem[s.Pd(i)] == PdWords(s, i)
      requires s.OnlyRound(mem, before, i)
      ensures s.PdsDone(mem, i + 1) && mem[s.Pml4()] == before[s.Pml4()]
    {
      hide PdWords;
      s.PdInRange(i);
      OutsidePd(s, 0, i);
      s.SlotsDistinct(0, 1);
      forall l | 0 <= l < i
        ensures mem[s.Pd(l)] == PdWords(s, l)
      {
        s.PdInRange(l);
        s.PdBeforePd(l, i);
        OutsidePd(s, s.PdSlot(l), i);
        s.SlotsDistinct(s.PdSlot(l), 1);
      }
    }

    lemma UntouchedAcrossRound(s: Supply, before: Memory, start: Memory, i: nat)
      requires Building(s) && Physical(before) && Physical(start) && i < ENTRIES
      requires s.Untouched(before, start, s.PdSlot(i))
      requires s.OnlyRound(mem, before, i)
      ensures s.Untouched(mem, start, s.PdSlot(i + 1))
    {
      s.PdBeforePd(i, i + 1);
      s.PdInRange(i);
      forall f: frame | forall x :: 0 <= x < s.PdSlot(i + 1) ==> f != s.At(x)
        ensures mem[f] == start[f]
      {
        assert f != s.At(1) && f != s.At(s.PdSlot(i));
        forall n | i * ENTRIES <= n < (i + 1) * ENTRIES && s.q.Split(n)
          ensures f != s.Pt(n)
        {
          s.PtBeforePd(n, i + 1);
        }
        assert forall x :: 0 <= x < s.PdSlot(i) ==> f != s.At(x);
      }
    }

    /** One round of the outer loop: allocate, clear and enter directory i, then fill it. */
    method FillPdpt(pdpts: frame, i: nat, ghost s: Supply, ghost start: Memory)
      requires Building(s) && Physical(start) && i < ENTRIES && pdpts == s.Pdpt()
      requires used == s.start + s.PdSlot(i) && s.Progress(mem, start, i)
      modifies this`mem, this`used
      ensures Physical(mem) && used == s.start + s.PdSlot(i + 1) && s.Progress(mem, start, i + 1)
    {
      hide PdWords, PtWords, Scan, PointerEntry;
      s.PdInRange(i);
      OutsidePd(s, 1, i);
      var pdes := Malloc();
      Clear(pdes);
      var w := PackPointer(pdes);
      Store(pdpts, i, w);
      KeepAcrossClear(s, old(mem), i);
      FillPd(pdes, i, s);
      KeepAcrossRound(s, old(mem), i);
      UntouchedAcrossRound(s, old(mem), start, i);
    }

    /** The outer loop. */
    method FillPdpts(pdpts: frame, ghost s: Supply, ghost start: Memory)
      requires Building(s) && Physical(start) && pdpts == s.Pdpt()
      requires used == s.start + s.PdSlot(0) && s.Progress(mem, start, 0)
      modifies this`mem, this`used
      ensures Physical(mem) && used == s.start + s.PdSlot(ENTRIES) && s.Progress(mem, start, ENTRIES)
    {
      hide Supply.Progress, Supply.PdSlot, Supply.Pdpt, Supply.Valid, Physical;
      var i := 0;
      while i < ENTRIES
        invariant i <= ENTRIES && Building(s)
        invariant used == s.start + s.PdSlot(i) && s.Progress(mem, start, i)
      {
        FillPdpt(pdpts, i, s, start);
        i := i + 1;
      }
    }

    /** The two root tables. */
    method InitRoot(ghost s: Supply) returns (pml4: frame, pdpts: frame)
      requires Building(s) && s.start == used
      modifies this`mem, this`used
      ensures Physical(mem) && used == s.start + 2
      ensures pml4 == s.Pml4() && pdpts == s.Pdpt() && mem[pml4] == s.Pml4Words()
      ensures s.Untouched(mem, old(mem), 2)
    {
      hide PointerEntry;
      pml4 := Malloc();
      Clear(pml4);
      pdpts := Malloc();
      Clear(pdpts);
      s.SlotsDistinct(0, 1);
      var w := PackPointer(pdpts);
      Store(pml4, 0, w);
      assert mem[pml4] == s.Pml4Words();
    }

    /** `ept_init_core`: the finished tree hangs off the EPT pointer, exactly the frames of the
        tree were taken from the allocator, and no other frame of memory changed. */
    method InitCore(ghost s: Supply)
      requires Building(s) && s.start == used
      modifies this
      ensures Physical(mem) && s.Built(mem)
      ensures eptp == EptPointer(s.Pml4())
      ensures used == old(used) + s.Total()
      ensures s.Untouched(mem, old(mem), s.Total())
    {
      hide Supply.Progress, Supply.PdSlot, Supply.Total, Supply.Built, Supply.Untouched, EptPointer;
      var pml4, pdpts := InitRoot(s);
      s.ProgressBegins(mem, old(mem));
      FillPdpts(pdpts, s, old(mem));
      s.ProgressEnds(mem, old(mem));
      eptp := PackEptPointer(pml4);
    }
  }
}

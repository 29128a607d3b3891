/** The tables form a tree and no frame is lost: every frame the builder took, except the root, is
    pointed to by exactly one entry, and every pointer leads to a frame the builder took. */
module EptTree {
  import opened Bits
  import opened Paging
  import opened EptEntry
  import opened EptBuild
  import opened EptWalk

  /** An entry of the PML4, of the PDPT, or of the directory for the n-th 2 MiB page. */
  datatype Position = InPml4(k: nat) | InPdpt(i: nat) | InPd(n: nat) {
    predicate Valid()
    {
      match this
      case InPml4(k) => k < ENTRIES
      case InPdpt(i) => i < ENTRIES
      case InPd(n) => n < LARGE_PAGES
    }
  }

  ghost function WordAt(s: Supply, m: Memory, p: Position): u64
    requires Physical(m) && p.Valid()
  {
    match p
    case InPml4(k) => m[s.Pml4()][k]
    case InPdpt(i) => m[s.Pdpt()][i]
    case InPd(n) => m[s.Pd(n / ENTRIES)][n % ENTRIES]
  }

  /** The entry is a present non-leaf that holds frame `f`. */
  ghost predicate PointsTo(s: Supply, m: Memory, p: Position, f: frame)
    requires Physical(m) && p.Valid()
  {
    var w := WordAt(s, m, p);
    Present(w) && !IsLarge(w) && FrameOf(w) == f
  }

  /** The entries the builder makes pointers. */
  predicate IsPointer(s: Supply, p: Position)
    requires p.Valid()
  {
    match p
    case InPml4(k) => k == 0
    case InPdpt(i) => true
    case InPd(n) => s.q.Split(n)
  }

  /** The place in the allocation order of the frame a pointer holds. */
  function Slot(s: Supply, p: Position): nat
    requires p.Valid()
  {
    match p
    case InPml4(k) => 1
    case InPdpt(i) => s.PdSlot(i)
    case InPd(n) => s.PtSlot(n)
  }

  lemma SlotInRange(s: Supply, p: Position)
    requires p.Valid() && IsPointer(s, p)
    ensures 1 <= Slot(s, p) < s.Total()
  {
    match p
    case InPml4(k) =>
    case InPdpt(i) => s.PdInRange(i);
    case InPd(n) => s.PtInRange(n);
  }

  /** Pointers are exactly the intended ones, each to its own frame. */
  lemma PointsToIs(s: Supply, m: Memory, p: Position, f: frame)
    requires Physical(m) && s.Built(m) && p.Valid()
    ensures PointsTo(s, m, p, f) <==> IsPointer(s, p) && f == s.At(Slot(s, p))
  {
    hide PointerEntry, FrameOf, IsLarge, Present;
    hide Supply.PdWord, Supply.At, Supply.Built, Supply.PdSlot, Supply.PtSlot, Query.Split;
    match p
    case InPml4(k) =>
      Pml4Entry(s, m, k);
    case InPdpt(i) =>
      BuiltRoot(s, m, i);
      PointerReads(s.Pd(i));
      AccessibleIsPresent(PointerEntry(s.Pd(i)));
    case InPd(n) =>
      BuiltPd(s, m, n / ENTRIES, n % ENTRIES);
      PdWordReads(s, n);
      AccessibleIsPresent(s.PdWord(n));
  }

  lemma AccessibleIsPresent(w: u64)
    ensures Accessible(w) ==> Present(w)
  {
  }

  lemma Pml4Entry(s: Supply, m: Memory, k: nat)
    requires Physical(m) && s.Built(m) && k < ENTRIES
    ensures var w := m[s.Pml4()][k];
            if k == 0 then Present(w) && !IsLarge(w) && FrameOf(w) == s.Pdpt() else !Present(w)
  {
    hide PointerEntry, FrameOf, IsLarge, Present, Supply.PdsDone, Supply.PtsDone;
    PointerReads(s.Pdpt());
    AccessibleIsPresent(PointerEntry(s.Pdpt()));
    ZeroEntryAbsent();
  }

  /** Distinct pointers hold distinct places in the allocation order. */
  lemma SlotInjective(s: Supply, p: Position, p': Position)
    requires p.Valid() && p'.Valid() && IsPointer(s, p) && IsPointer(s, p') && Slot(s, p) == Slot(s, p')
    ensures p == p'
  {
    hide Supply.PdSlot, Supply.PtSlot, Supply.Total;
    match (p, p')
    case (InPml4(_), InPml4(_)) =>
    case (InPml4(_), InPdpt(i)) => s.PdInRange(i);
    case (InPml4(_), InPd(n)) => s.PtInRange(n);
    case (InPdpt(i), InPml4(_)) => s.PdInRange(i);
    case (InPdpt(i), InPdpt(i')) => if i < i' { s.PdBeforePd(i, i'); } else if i' < i { s.PdBeforePd(i', i); }
    case (InPdpt(i), InPd(n)) => if n / ENTRIES < i { s.PtBeforePd(n, i); } else { s.PdBeforePt(i, n); }
    case (InPd(n), InPml4(_)) => s.PtInRange(n);
    case (InPd(n), InPdpt(i)) => if n / ENTRIES < i { s.PtBeforePd(n, i); } else { s.PdBeforePt(i, n); }
    case (InPd(n), InPd(n')) => if n < n' { s.PtBeforePt(n, n'); } else if n' < n { s.PtBeforePt(n', n); }
  }

  /** The split page that raises the split count from v to v + 1. */
  lemma {:induction false} FindSplit(q: Query, lo: nat, hi: nat, v: nat) returns (n: nat)
    requires lo <= hi <= LARGE_PAGES && q.Splits(lo) <= v < q.Splits(hi)
    ensures lo <= n < hi && q.Split(n) && q.Splits(n) == v
    decreases hi
  {
    if q.Splits(hi - 1) <= v {
      n := hi - 1;
    } else {
      n := FindSplit(q, lo, hi - 1, v);
    }
  }

  /** The directory whose round of the outer loop took the frame at place x. */
  lemma {:induction false} FindRound(s: Supply, hi: nat, x: nat) returns (i: nat)
    requires hi <= ENTRIES && s.PdSlot(0) <= x < s.PdSlot(hi)
    ensures i < hi && s.PdSlot(i) <= x < s.PdSlot(i + 1)
    decreases hi
  {
    if s.PdSlot(hi - 1) <= x {
      i := hi - 1;
    } else {
      i := FindRound(s, hi - 1, x);
    }
  }

  /** Every place but the root's is held by some pointer. */
  lemma SlotSurjective(s: Supply, x: nat) returns (p: Position)
    requires 1 <= x < s.Total()
    ensures p.Valid() && IsPointer(s, p) && Slot(s, p) == x
  {
    s.PdSlotEnds();
    if x == 1 {
      p := InPml4(0);
    } else {
      var i := FindRound(s, ENTRIES, x);
      if x == s.PdSlot(i) {
        p := InPdpt(i);
      } else {
        var n := FindSplit(s.q, i * ENTRIES, (i + 1) * ENTRIES, x - 3 - i);
        p := InPd(n);
      }
    }
  }

  /** Some entry of the tree points to the frame. */
  ghost predicate HasParent(s: Supply, m: Memory, f: frame)
    requires Physical(m)
  {
    exists p: Position :: p.Valid() && PointsTo(s, m, p, f)
  }

  /** The frame was taken by the builder, and not as the root. */
  ghost predicate Taken(s: Supply, f: frame)
  {
    exists x :: 1 <= x < s.Total() && f == s.At(x)
  }

  /** The tree theorem: having a parent is the same as having been taken for a table below the
      root, and no frame has two parents. */
  lemma TablesFormATree(s: Supply, m: Memory)
    requires Physical(m) && s.Valid() && s.Built(m)
    ensures forall f: frame :: HasParent(s, m, f) <==> Taken(s, f)
    ensures forall p: Position, p': Position, f: frame ::
              p.Valid() && p'.Valid() && PointsTo(s, m, p, f) && PointsTo(s, m, p', f) ==> p == p'
  {
    hide PointsTo, Supply.At, Supply.Total, Supply.Valid, Supply.Built, Slot, IsPointer;
    forall f: frame
      ensures HasParent(s, m, f) <==> Taken(s, f)
    {
      if Taken(s, f) {
        var x :| 1 <= x < s.Total() && f == s.At(x);
        var p := SlotSurjective(s, x);
        PointsToIs(s, m, p, f);
      }
      if HasParent(s, m, f) {
        var p: Position :| p.Valid() && PointsTo(s, m, p, f);
        PointsToIs(s, m, p, f);
        SlotInRange(s, p);
      }
    }
    forall p: Position, p': Position, f: frame | p.Valid() && p'.Valid() && PointsTo(s, m, p, f) && PointsTo(s, m, p', f)
      ensures p == p'
    {
      OneParent(s, m, p, p', f);
    }
  }

  lemma OneParent(s: Supply, m: Memory, p: Position, p': Position, f: frame)
    requires Physical(m) && s.Valid() && s.Built(m) && p.Valid() && p'.Valid()
    requires PointsTo(s, m, p, f) && PointsTo(s, m, p', f)
    ensures p == p'
  {
    hide PointsTo, Supply.At, Supply.Total, Supply.Valid, Supply.Built, Slot, IsPointer;
    PointsToIs(s, m, p, f);
    PointsToIs(s, m, p', f);
    SlotInRange(s, p);
    SlotInRange(s, p');
    if Slot(s, p) != Slot(s, p') {
      s.SlotsDistinct(Slot(s, p), Slot(s, p'));
    } else {
      SlotInjective(s, p, p');
    }
  }

  // ------------------------------------------------------------- several builds

  /** Build s' takes its frames from the same allocator after build s has taken all of its own. */
  ghost predicate Follows(s: Supply, s': Supply)
  {
    s.Valid() && s'.Valid() && s'.frames == s.frames && s'.start >= s.start + s.Total()
  }

  lemma LaterFrames(s: Supply, s': Supply, x: nat, y: nat)
    requires Follows(s, s') && x < s.Total() && y < s'.Total()
    ensures s.At(x) != s'.At(y)
  {
    hide Supply.Total;
  }

  /** Another build, for another core, keeps a finished tree. */
  lemma LaterBuildKeeps(s: Supply, s': Supply, m: Memory, m': Memory)
    requires Follows(s, s') && Physical(m) && Physical(m') && s.Built(m) && s'.Untouched(m', m, s'.Total())
    ensures s.Built(m')
  {
    hide Supply.Total, Supply.Valid, Follows, PdWords, PtWords, PdptWords, Supply.Pml4Words, Supply.PdSlot;
    hide Supply.PtSlot, Query.Split, Supply.At;
    forall x: nat | x < s.Total()
      ensures m'[s.At(x)] == m[s.At(x)]
    {
      forall y: nat | y < s'.Total()
        ensures s.At(x) != s'.At(y)
      {
        LaterFrames(s, s', x, y);
      }
    }
    RootInRange(s);
    forall l | 0 <= l < ENTRIES
      ensures m'[s.Pd(l)] == PdWords(s, l)
    {
      s.PdInRange(l);
    }
    forall l | 0 <= l < LARGE_PAGES && s.q.Split(l)
      ensures m'[s.Pt(l)] == PtWords(s.q, l)
    {
      s.PtInRange(l);
    }
  }

  lemma RootInRange(s: Supply)
    ensures s.Total() >= 2
  {
  }
}

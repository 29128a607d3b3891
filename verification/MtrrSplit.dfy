/** Which 2 MiB pages the large query leaves without a type, first over the table and then over the
    registers. */
module MtrrSplit {
  import opened Bits
  import opened Paging
  import opened Mtrr
  import opened MemoryType
  import opened MtrrRule

  /** The range holds the start of the 2 MiB page but ends inside it. */
  predicate Cuts(e: Entry, base: nat) { e.Contains(base) && e.end < base + PAGE_2M }

  /** Some range cuts the page, and no fixed or uncacheable range before it has already answered. */
  ghost predicate TableCuts(t: seq<Entry>, base: nat, i: nat)
  {
    exists k :: i <= k < |t| && Cuts(t[k], base) && Unanswered(t, base, i, k)
  }

  ghost predicate Unanswered(t: seq<Entry>, base: nat, i: nat, k: nat)
  {
    forall j :: i <= j < k && j < |t| && t[j].Contains(base) ==> !t[j].fixed && t[j].typ != UC
  }

  lemma CutsStep(t: seq<Entry>, base: nat, i: nat)
    requires i < |t|
    ensures TableCuts(t, base, i)
       <==> Cuts(t[i], base) || ((t[i].Contains(base) ==> !t[i].fixed && t[i].typ != UC) && TableCuts(t, base, i + 1))
  {
    if TableCuts(t, base, i) && !Cuts(t[i], base) {
      var k :| i <= k < |t| && Cuts(t[k], base) && Unanswered(t, base, i, k);
      assert Unanswered(t, base, i + 1, k);
    }
    if TableCuts(t, base, i + 1) && (t[i].Contains(base) ==> !t[i].fixed && t[i].typ != UC) {
      var k :| i + 1 <= k < |t| && Cuts(t[k], base) && Unanswered(t, base, i + 1, k);
      assert Unanswered(t, base, i, k);
    }
  }

  /** The large query over a proper table is without an answer exactly if the page is cut. */
  lemma {:induction false} InvalidExactly(t: seq<Entry>, d: u8, base: u64, i: nat, result: u8)
    requires i <= |t| && Proper(t) && ValidType(d) && (result == INVALID || ValidType(result))
    requires base % PAGE_2M == 0 && base + PAGE_2M < U64_SIZE
    ensures ScanFrom(t, d, base, PAGE_2M, i, result) == INVALID <==> TableCuts(t, base, i)
    decreases |t| - i
  {
    hide TableCuts;
    if i < |t| {
      CutsStep(t, base, i);
      CutsOrCovers(t[i], base);
      InvalidExactly(t, d, base, i + 1, result);
      InvalidExactly(t, d, base, i + 1, Merge(result, t[i].typ));
    } else {
      NothingCuts(t, base);
    }
  }

  lemma NothingCuts(t: seq<Entry>, base: nat)
    ensures !TableCuts(t, base, |t|)
  {
  }

  lemma CutsOrCovers(e: Entry, base: u64)
    requires base + PAGE_2M < U64_SIZE
    ensures e.Contains(base) ==> ((base + PAGE_2M - 1) % U64_SIZE >= e.end <==> Cuts(e, base))
  {
  }

  // --------------------------------------------------------------- registers

  /** No uncacheable variable range among the first c matches the address. */
  ghost predicate NoneUncached(regs: Msrs, a: nat, c: nat)
    requires c <= MAX_VARIABLE
  {
    forall j :: 0 <= j < c && SdmMatches(regs, j, a) ==> SdmRangeType(regs, j) != 0
  }

  /** Variable range i matches the first address of the 2 MiB page at `base` but not the last. */
  predicate MatchesStartOnly(regs: Msrs, base: nat, i: nat)
    requires i < MAX_VARIABLE
  {
    SdmMatches(regs, i, base) && !SdmMatches(regs, i, base + PAGE_2M - 1)
  }

  /** One of the first c variable ranges matches the page's start but not its end, and no uncacheable range
      with a smaller number matches the start. */
  ghost predicate RangesCut(regs: Msrs, base: nat, c: nat)
    requires c <= MAX_VARIABLE
  {
    exists i :: 0 <= i < c && MatchesStartOnly(regs, base, i) && NoneUncached(regs, base, i)
  }

  lemma CutsSnoc(t: seq<Entry>, e: Entry, base: nat)
    ensures TableCuts(t + [e], base, 0) <==> TableCuts(t, base, 0) || (Unanswered(t, base, 0, |t|) && Cuts(e, base))
    ensures Unanswered(t + [e], base, 0, |t| + 1)
       <==> Unanswered(t, base, 0, |t|) && (e.Contains(base) ==> !e.fixed && e.typ != UC)
  {
    hide Cuts, Entry.Contains;
    var t' := t + [e];
    assert forall k :: 0 <= k < |t| ==> t'[k] == t[k];
    assert t'[|t|] == e;
    assert forall k :: 0 <= k <= |t| ==> (Unanswered(t', base, 0, k) <==> Unanswered(t, base, 0, k));
    if TableCuts(t, base, 0) {
      var k :| 0 <= k < |t| && Cuts(t[k], base) && Unanswered(t, base, 0, k);
      assert Cuts(t'[k], base);
    }
  }

  lemma RangesCutStep(regs: Msrs, base: nat, c: nat)
    requires c < MAX_VARIABLE
    ensures RangesCut(regs, base, c + 1)
       <==> RangesCut(regs, base, c) || (NoneUncached(regs, base, c) && MatchesStartOnly(regs, base, c))
    ensures NoneUncached(regs, base, c + 1)
       <==> NoneUncached(regs, base, c) && (SdmMatches(regs, c, base) ==> SdmRangeType(regs, c) != 0)
  {
    hide SdmMatches, SdmRangeType, MatchesStartOnly;
  }

  /** The decoded entry of a variable range says what the register says. */
  lemma EntryCuts(regs: Msrs, maxPhyAddr: nat, base: nat, i: nat)
    requires Programmed(regs, maxPhyAddr) && i < VariableCount(regs) && VariableOn(regs, i)
    requires base + PAGE_2M <= Pow2(maxPhyAddr)
    ensures FrameField(PhysMask(regs, i)) != 0
    ensures var e := VariableEntry(regs, i);
            && (e.Contains(base) <==> SdmMatches(regs, i, base)) && (Cuts(e, base) <==> MatchesStartOnly(regs, base, i))
            && !e.fixed && e.typ == SdmRangeType(regs, i)
  {
    hide Programmed, SdmMatches, Byte, VariableOn, VariableCount, Pow2, FrameField, RangeSize, SdmRangeType;
    DecodingRange(regs, i);
    EntryIsMatch(regs, i, maxPhyAddr, base);
    EntryIsMatch(regs, i, maxPhyAddr, base + PAGE_2M - 1);
  }

  lemma {:induction false} VariableCuts(regs: Msrs, maxPhyAddr: nat, base: nat, c: nat)
    requires Programmed(regs, maxPhyAddr) && MasksNonZero(regs) && c <= VariableCount(regs)
    requires base + PAGE_2M <= Pow2(maxPhyAddr)
    ensures var t := VariableTable(regs, c);
            && (TableCuts(t, base, 0) <==> RangesCut(regs, base, c))
            && (Unanswered(t, base, 0, |t|) <==> NoneUncached(regs, base, c))
  {
    hide Programmed, MasksNonZero, SdmMatches, SdmRangeType, VariableOn, VariableCount, Pow2, FrameField;
    hide VariableEntry, PhysBase, PhysMask, TableCuts, Unanswered, RangesCut, NoneUncached, MatchesStartOnly, Cuts;
    if c == 0 {
      NothingToCut(regs, base);
    } else {
      VariableCuts(regs, maxPhyAddr, base, c - 1);
      RangesCutStep(regs, base, c - 1);
      if VariableOn(regs, c - 1) {
        EntryCuts(regs, maxPhyAddr, base, c - 1);
        CutsSnoc(VariableTable(regs, c - 1), VariableEntry(regs, c - 1), base);
      } else {
        OffMatchesNothing(regs, base, c - 1);
        assert VariableTable(regs, c) == VariableTable(regs, c - 1);
      }
    }
  }

  lemma NothingToCut(regs: Msrs, base: nat)
    ensures !TableCuts([], base, 0) && !RangesCut(regs, base, 0)
    ensures Unanswered([], base, 0, 0) && NoneUncached(regs, base, 0)
  {
  }

  lemma OffMatchesNothing(regs: Msrs, base: nat, i: nat)
    requires i < MAX_VARIABLE && !VariableOn(regs, i)
    ensures !SdmMatches(regs, i, base) && !MatchesStartOnly(regs, base, i)
  {
    hide SdmMatches, VariableOn;
    if SdmMatches(regs, i, base) { MatchIsOn(regs, i, base); }
  }

  /** A prefix that does not hold the page's start does not matter. */
  lemma {:induction false} CutsAfter(f: seq<Entry>, t: seq<Entry>, base: nat, i: nat)
    requires i <= |f| && forall k :: 0 <= k < |f| ==> !f[k].Contains(base)
    ensures TableCuts(f + t, base, i) <==> TableCuts(t, base, 0)
    decreases |f| - i
  {
    if i < |f| {
      CutsStep(f + t, base, i);
      CutsAfter(f, t, base, i + 1);
    } else {
      var s := f + t;
      assert forall k :: 0 <= k < |t| ==> s[|f| + k] == t[k];
      assert forall k :: |f| <= k < |s| ==> s[k] == t[k - |f|];
      forall k | 0 <= k < |t|
        ensures Unanswered(s, base, |f|, |f| + k) <==> Unanswered(t, base, 0, k)
      {
        UnansweredAfter(f, t, base, k);
      }
      if TableCuts(s, base, |f|) {
        var k :| |f| <= k < |s| && Cuts(s[k], base) && Unanswered(s, base, |f|, k);
        assert Cuts(t[k - |f|], base) && Unanswered(s, base, |f|, |f| + (k - |f|));
      }
    }
  }

  lemma UnansweredAfter(f: seq<Entry>, t: seq<Entry>, base: nat, k: nat)
    requires k < |t|
    ensures Unanswered(f + t, base, |f|, |f| + k) <==> Unanswered(t, base, 0, k)
  {
    var s := f + t;
    assert forall j :: 0 <= j < |t| ==> s[|f| + j] == t[j];
    assert forall j :: |f| <= j < |s| ==> s[j] == t[j - |f|];
  }

  /** The n-th 2 MiB page is cut: by the fixed ranges, or by a variable range that matches its start but not
      its end before an uncacheable one matches its start. */
  ghost predicate PageCut(regs: Msrs, n: nat)
  {
    (SdmFixedOn(regs) && n == 0) || RangesCut(regs, n * PAGE_2M, SdmCount(regs))
  }

  /** The large query is without an answer exactly on the pages that are cut. */
  lemma NoTypeExactly(regs: Msrs, maxPhyAddr: nat, n: nat)
    requires Programmed(regs, maxPhyAddr) && MasksNonZero(regs) && (n + 1) * PAGE_2M <= Pow2(maxPhyAddr)
    ensures n * PAGE_2M + PAGE_2M < U64_SIZE
    ensures Scan(TableOf(regs), DefaultType(regs), n * PAGE_2M, PAGE_2M) == INVALID <==> PageCut(regs, n)
  {
    hide Programmed, MasksNonZero, DefaultType, ScanFrom, RangesCut, FixedOn, SdmFixedOn, VariableCount, SdmCount, Pow2;
    hide FixedPart, VariableTable, TableCuts;
    var t, base := TableOf(regs), n * PAGE_2M;
    Decoding(regs);
    BelowTop(regs, maxPhyAddr, base + PAGE_2M);
    if FixedOn(regs) && n == 0 {
      PageZeroSplits(regs);
    } else {
      TableIsProper(regs, maxPhyAddr);
      DivModUnique(base, PAGE_2M, n, 0);
      InvalidExactly(t, DefaultType(regs), base, 0, INVALID);
      FixedMissesPage(regs, maxPhyAddr, n);
      CutsAfter(FixedPart(regs), VariableTable(regs, VariableCount(regs)), base, 0);
      VariableCuts(regs, maxPhyAddr, base, VariableCount(regs));
    }
  }

  lemma BelowTop(regs: Msrs, maxPhyAddr: nat, a: nat)
    requires Programmed(regs, maxPhyAddr) && a <= Pow2(maxPhyAddr)
    ensures a < U64_SIZE && ValidType(DefaultType(regs))
  {
    hide SdmFixedType, RangeProgrammed, Pow2, SdmFixedOn, SdmOn, SdmCount, SdmDefault, DefaultType;
    Decoding(regs);
    Pow2Monotone(maxPhyAddr, 48);
    Pow2Values();
  }

  lemma FixedMissesPage(regs: Msrs, maxPhyAddr: nat, n: nat)
    requires Programmed(regs, maxPhyAddr) && MasksNonZero(regs) && !(FixedOn(regs) && n == 0) && n * PAGE_2M < U64_SIZE
    ensures forall k :: 0 <= k < |FixedPart(regs)| ==> !FixedPart(regs)[k].Contains(n * PAGE_2M)
  {
    hide Programmed, MasksNonZero, FixedOn, FixedPart, VariableTable;
    var base := n * PAGE_2M;
    DivModUnique(base, PAGE_4K, n * ENTRIES, 0);
    FixedBelowMiB(regs, maxPhyAddr, base);
    forall k | 0 <= k < |FixedPart(regs)|
      ensures !FixedPart(regs)[k].Contains(base)
    {
      ProperFixed(regs, maxPhyAddr, k);
      assert TableOf(regs)[k] == FixedPart(regs)[k];
    }
  }
}

/** Where the memory type of the processor's rule can change, read off the registers: only at the edges of
    the variable ranges. */
module MtrrRegion {
  import opened Bits
  import opened Mtrr
  import opened MemoryType
  import opened MtrrRule

  /** A variable range begins or ends at `b`: it matches one of `b - 1` and `b` but not the other. */
  ghost predicate RangeEdge(regs: Msrs, b: nat)
  {
    b > 0 && exists i :: 0 <= i < SdmCount(regs) && SdmMatches(regs, i, b) != SdmMatches(regs, i, b - 1)
  }

  /** Off the edges the same variable ranges match, so neighbours have the same type. */
  lemma SameOffEdge(regs: Msrs, b: nat, r: u8)
    requires b > 0 && !RangeEdge(regs, b) && !(SdmFixedOn(regs) && b - 1 < ONE_MIB)
    ensures SdmType(regs, b, r) <==> SdmType(regs, b - 1, r)
  {
    hide SdmMatches, SdmRangeType, Precedence, SdmFixedOn, SdmCount, SdmDefault;
    assert SdmVariableTypes(regs, b) == SdmVariableTypes(regs, b - 1);
  }

  /** The edges strictly between two addresses have the type `r`. */
  ghost predicate EdgesHave(regs: Msrs, lo: nat, hi: nat, r: u8)
  {
    forall b :: lo < b < hi && RangeEdge(regs, b) ==> SdmType(regs, b, r)
  }

  lemma {:induction false} TypeSpreads(regs: Msrs, lo: nat, hi: nat, r: u8, a: nat)
    requires lo <= a < hi && !(SdmFixedOn(regs) && lo < ONE_MIB)
    requires SdmType(regs, lo, r) && EdgesHave(regs, lo, hi, r)
    ensures SdmType(regs, a, r)
    decreases a - lo
  {
    hide SdmType, SdmFixedOn, RangeEdge;
    if lo < a && !RangeEdge(regs, a) {
      TypeSpreads(regs, lo, hi, r, a - 1);
      SameOffEdge(regs, a, r);
    }
  }

  /** A region outside the fixed ranges has one type exactly when its start and its inner edges have it. */
  lemma RegionExactly(regs: Msrs, lo: nat, hi: nat, r: u8)
    requires lo < hi && !(SdmFixedOn(regs) && lo < ONE_MIB)
    ensures (forall a :: lo <= a < hi ==> SdmType(regs, a, r)) <==> SdmType(regs, lo, r) && EdgesHave(regs, lo, hi, r)
  {
    hide SdmType, SdmFixedOn, RangeEdge;
    if SdmType(regs, lo, r) && EdgesHave(regs, lo, hi, r) {
      forall a | lo <= a < hi
        ensures SdmType(regs, a, r)
      {
        TypeSpreads(regs, lo, hi, r, a);
      }
    }
  }

  /** The edges are the ends of the decoded intervals. */
  lemma EdgeIsBound(regs: Msrs, maxPhyAddr: nat, b: nat)
    requires Programmed(regs, maxPhyAddr) && MasksNonZero(regs) && 0 < b < Pow2(maxPhyAddr)
    ensures RangeEdge(regs, b)
       <==> exists i :: 0 <= i < VariableCount(regs) && VariableOn(regs, i) && EndsAt(VariableEntry(regs, i), b)
  {
    hide SdmMatches, Programmed, VariableEntry, VariableOn, VariableCount, SdmCount, Pow2, MasksNonZero;
    Decoding(regs);
    forall i | 0 <= i < VariableCount(regs)
      ensures SdmMatches(regs, i, b) != SdmMatches(regs, i, b - 1)
         <==> VariableOn(regs, i) && FrameField(PhysMask(regs, i)) != 0 && EndsAt(VariableEntry(regs, i), b)
    {
      OneRangeEdge(regs, maxPhyAddr, i, b);
    }
    MasksAreNonZero(regs);
  }

  predicate EndsAt(e: Entry, b: nat) { e.begin == b || e.end == b }

  lemma MasksAreNonZero(regs: Msrs)
    requires MasksNonZero(regs)
    ensures forall i :: 0 <= i < VariableCount(regs) && VariableOn(regs, i) ==> FrameField(PhysMask(regs, i)) != 0
  {
    hide VariableCount, VariableOn, FrameField;
  }

  lemma OneRangeEdge(regs: Msrs, maxPhyAddr: nat, i: nat, b: nat)
    requires Programmed(regs, maxPhyAddr) && i < VariableCount(regs) && 0 < b < Pow2(maxPhyAddr)
    ensures SdmMatches(regs, i, b) != SdmMatches(regs, i, b - 1)
       <==> VariableOn(regs, i) && FrameField(PhysMask(regs, i)) != 0 && EndsAt(VariableEntry(regs, i), b)
  {
    hide Programmed, VariableOn, VariableCount, Pow2, VariableEntry, SdmMatches, FrameField;
    if VariableOn(regs, i) {
      EntryIsMatch(regs, i, maxPhyAddr, b);
      EntryIsMatch(regs, i, maxPhyAddr, b - 1);
      EntryNotEmpty(regs, i);
    } else {
      if SdmMatches(regs, i, b) { MatchIsOn(regs, i, b); }
      if SdmMatches(regs, i, b - 1) { MatchIsOn(regs, i, b - 1); }
    }
  }

  lemma EntryNotEmpty(regs: Msrs, i: nat)
    requires i < MAX_VARIABLE && FrameField(PhysMask(regs, i)) != 0
    ensures VariableEntry(regs, i).begin < VariableEntry(regs, i).end
  {
    hide FrameField, Byte;
  }
}

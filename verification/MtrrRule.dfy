/** The memory type the processor gives an address, read straight off the registers: the rule of
    Intel SDM Vol. 3A sections 11.11.2.3 (masks) and 11.11.4.1 (precedence).  The interval table
    and its scan are proved to agree with it. */
module MtrrRule {
  import opened Bits
  import opened BitOps
  import opened Mtrr
  import opened MemoryType
  import opened Paging

  const ONE_MIB: nat := 0x100000

  // ------------------------------------------------------ intervals and masks

  /** The page frames the decoder takes a base and a mask to select. */
  predicate InInterval(x: nat, base: nat, mask: nat)
    requires mask > 0
  {
    base <= x < base + Pow2(Bsf(mask))
  }

  /** The page frames the processor selects. */
  predicate InMask(x: nat, base: nat, mask: nat)
  {
    And(x, mask) == And(base, mask)
  }

  /** The mask has ones exactly from its lowest set bit up to the top of the p-bit frame number. */
  predicate Contiguous(mask: nat, p: nat)
  {
    mask > 0 && mask == Pow2(p) - Pow2(Bsf(mask))
  }

  predicate Aligned(base: nat, mask: nat)
    requires mask > 0
  {
    base % Pow2(Bsf(mask)) == 0
  }

  lemma IntervalRefinesMask(x: nat, base: nat, mask: nat, p: nat)
    requires Contiguous(mask, p) && Aligned(base, mask) && x < Pow2(p) && base < Pow2(p)
    ensures InInterval(x, base, mask) <==> InMask(x, base, mask)
    ensures base + Pow2(Bsf(mask)) <= Pow2(p)
  {
    var k := Bsf(mask);
    ContiguousBelow(mask, p);
    AndContiguous(x, p, k);
    AndContiguous(base, p, k);
    Pow2Add(k, p - k);
    hide And, Pow2, Bsf;
    SameBlock(x, base, Pow2(k), Pow2(p - k));
  }

  lemma ContiguousBelow(mask: nat, p: nat)
    requires Contiguous(mask, p)
    ensures Bsf(mask) < p
  {
    if Bsf(mask) >= p {
      Pow2Monotone(p, Bsf(mask));
    }
  }

  /** Blocks of `s` numbers, `n` of them. */
  lemma SameBlock(x: nat, base: nat, s: nat, n: nat)
    requires s > 0 && base % s == 0 && base < s * n
    ensures x - x % s == base - base % s <==> base <= x < base + s
    ensures base + s <= s * n
  {
    DivMod(x, s);
    DivMod(base, s);
    var q := base / s;
    if base <= x < base + s {
      DivModUnique(x, s, q, x - base);
    }
    if q >= n {
      MulLe(n, q, s);
    }
    MulLe(q + 1, n, s);
  }

  /** The decoder's interval is the processor's range, for every frame number, if and only if the
      mask is contiguous and the base is aligned to its size. */
  lemma IntervalExactly(base: nat, mask: nat, p: nat)
    requires 0 < mask < Pow2(p) && base < Pow2(p)
    ensures (forall x :: 0 <= x < Pow2(p) ==> (InInterval(x, base, mask) <==> InMask(x, base, mask)))
       <==> Contiguous(mask, p) && Aligned(base, mask)
  {
    if Contiguous(mask, p) && Aligned(base, mask) {
      forall x | 0 <= x < Pow2(p)
        ensures InInterval(x, base, mask) <==> InMask(x, base, mask)
      {
        IntervalRefinesMask(x, base, mask, p);
      }
    } else if Contiguous(mask, p) {
      // an unaligned base: the start of its block matches the mask but lies before the interval
      var k := Bsf(mask);
      ContiguousBelow(mask, p);
      AndContiguous(base, p, k);
      AndAgain(base, mask);
      hide And, Pow2, Bsf;
      var x := And(base, mask);
      assert InMask(x, base, mask) && !InInterval(x, base, mask);
    } else {
      // a hole in the mask: two matching frames further apart than the interval is long
      var k := Bsf(mask);
      var j := MaskHole(mask, p, k);
      var x := And(base, mask);
      AndAgain(base, mask);
      AndUnseenBit(base, mask, j);
      Pow2Monotone(k + 1, j);
      HoleFits(x, mask, j, p);
      assert Pow2(k + 1) == 2 * Pow2(k);
      hide And, Pow2, Bsf;
      assert InMask(x, base, mask) && InMask(x + Pow2(j), base, mask);
      assert !InInterval(x, base, mask) || !InInterval(x + Pow2(j), base, mask);
    }
  }

  /** A mask that is not contiguous has a clear bit above its lowest set bit. */
  lemma {:induction false} MaskHole(mask: nat, p: nat, k: nat) returns (j: nat)
    requires 0 < mask < Pow2(p) && mask % Pow2(k) == 0 && BitSet(mask, k) && mask != Pow2(p) - Pow2(k)
    ensures k < j < p && !BitSet(mask, j)
    decreases p
  {
    if k == 0 {
      j := ClearBit(mask, p);
      if j == 0 {
        assert false;
      }
    } else {
      BitHalf(mask, k);
      DivDiv(mask, 2, Pow2(k - 1));
      var j' := MaskHole(mask / 2, p - 1, k - 1);
      j := j' + 1;
      BitHalf(mask, j);
    }
  }

  lemma {:induction false} ClearBit(mask: nat, p: nat) returns (j: nat)
    requires mask < Pow2(p) - 1
    ensures j < p && !BitSet(mask, j)
  {
    if mask % 2 == 0 {
      j := 0;
    } else {
      var j' := ClearBit(mask / 2, p - 1);
      j := j' + 1;
      BitHalf(mask, j);
    }
  }

  /** Setting a clear bit below bit `p` of a p-bit number keeps it a p-bit number. */
  lemma {:induction false} HoleFits(x: nat, mask: nat, j: nat, p: nat)
    requires x == And(x, mask) && mask < Pow2(p) && j < p && !BitSet(mask, j)
    ensures x + Pow2(j) < Pow2(p)
  {
    if j == 0 {
      AndEven(x, mask / 2);
      assert mask == 2 * (mask / 2);
      assert x < Pow2(p) && x % 2 == 0 && Pow2(p) == 2 * Pow2(p - 1);
    } else {
      BitHalf(mask, j);
      assert x / 2 == And(x / 2, mask / 2);
      HoleFits(x / 2, mask / 2, j - 1, p - 1);
    }
  }

  // ---------------------------------------------------------- the SDM rule

  /** The registers as the manual numbers and divides them, section 11.11.2: the count and the fixed-range
      support bit of IA32_MTRRCAP, the type and the fixed-range enable bit of IA32_MTRR_DEF_TYPE, and the pairs
      IA32_MTRR_PHYSBASEn, IA32_MTRR_PHYSMASKn. */
  function SdmCount(regs: Msrs): (n: nat)
    ensures n <= 255
  {
    Pow2Values();
    Field(regs(0xFE), 0, 8)
  }

  predicate SdmFixedOn(regs: Msrs) { Field(regs(0xFE), 8, 1) == 1 && Field(regs(0x2FF), 10, 1) == 1 }

  function SdmDefault(regs: Msrs): u8
  {
    Pow2Values();
    Field(regs(0x2FF), 0, 8)
  }

  predicate SdmOn(regs: Msrs, i: nat)
    requires i < 255
  {
    Field(regs(0x201 + 2 * i), 11, 1) == 1
  }

  function SdmRangeType(regs: Msrs, i: nat): u8
    requires i < 255
  {
    Pow2Values();
    Field(regs(0x200 + 2 * i), 0, 8)
  }

  /** Bits 12 to 47 of the base and the mask: page frame numbers. */
  function SdmBase(regs: Msrs, i: nat): nat
    requires i < 255
  {
    Field(regs(0x200 + 2 * i), 12, 36)
  }

  function SdmMask(regs: Msrs, i: nat): nat
    requires i < 255
  {
    Field(regs(0x201 + 2 * i), 12, 36)
  }

  /** Byte k of a fixed-range register. */
  function SdmByte(w: u64, k: nat): u8
    requires k < 8
  {
    Pow2Values();
    Field(w, 8 * k, 8)
  }

  /** Type of an address below 1 MiB in the fixed-range registers (section 11.11.2.2). */
  function SdmFixedType(regs: Msrs, a: nat): u8
    requires a < 0x100000
  {
    if a < 0x80000 then SdmByte(regs(0x250), a / 0x10000)
    else if a < 0xC0000 then SdmByte(regs(0x258 + (a - 0x80000) / 0x20000), (a - 0x80000) % 0x20000 / 0x4000)
    else SdmByte(regs(0x268 + (a - 0xC0000) / 0x8000), (a - 0xC0000) % 0x8000 / 0x1000)
  }

  /** Variable range `i` is enabled and matches the address under its mask. */
  predicate SdmMatches(regs: Msrs, i: nat, a: nat)
    requires i < 255
  {
    SdmOn(regs, i) && And(a, Shl(SdmMask(regs, i), 12)) == And(Shl(SdmBase(regs, i), 12), Shl(SdmMask(regs, i), 12))
  }

  ghost function SdmVariableTypes(regs: Msrs, a: nat): set<u8>
  {
    set i | 0 <= i < SdmCount(regs) && SdmMatches(regs, i, a) :: SdmRangeType(regs, i)
  }

  /** `r` is the memory type the processor uses for `a`. */
  ghost predicate SdmType(regs: Msrs, a: nat, r: u8)
  {
    if SdmFixedOn(regs) && a < 0x100000 then r == SdmFixedType(regs, a)
    else Precedence(SdmVariableTypes(regs, a), SdmDefault(regs), r)
  }

  /** The processor's behaviour for `a` is defined. */
  ghost predicate SdmDefined(regs: Msrs, a: nat)
  {
    (SdmFixedOn(regs) && a < 0x100000) || DefinedOverlap(SdmVariableTypes(regs, a))
  }

  /** Register contents the processor accepts, for physical addresses of `maxPhyAddr` bits. */
  ghost predicate Programmed(regs: Msrs, maxPhyAddr: nat)
  {
    && 32 <= maxPhyAddr <= 48
    && ValidType(SdmDefault(regs))
    && (SdmFixedOn(regs) ==> forall a :: 0 <= a < 0x100000 ==> ValidType(SdmFixedType(regs, a)))
    && forall i :: 0 <= i < SdmCount(regs) && SdmOn(regs, i) ==> RangeProgrammed(regs, i, maxPhyAddr - 12)
  }

  predicate RangeProgrammed(regs: Msrs, i: nat, p: nat)
    requires i < 255
  {
    && ValidType(SdmRangeType(regs, i))
    && Contiguous(SdmMask(regs, i), p)
    && SdmBase(regs, i) < Pow2(p)
    && Aligned(SdmBase(regs, i), SdmMask(regs, i))
  }

  /** The decoder reads the registers the manual names. */
  lemma Decoding(regs: Msrs)
    ensures VariableCount(regs) == SdmCount(regs) && DefaultType(regs) == SdmDefault(regs)
    ensures FixedOn(regs) <==> SdmFixedOn(regs)
  {
    hide Field, Byte;
    ByteIsField(regs(0xFE), 0);
    ByteIsField(regs(0x2FF), 0);
    RegisterFields(regs(0xFE));
    RegisterFields(regs(0x2FF));
  }

  lemma DecodingRange(regs: Msrs, i: nat)
    requires i < 255
    ensures VariableOn(regs, i) <==> SdmOn(regs, i)
    ensures Byte(PhysBase(regs, i), 0) == SdmRangeType(regs, i)
    ensures FrameField(PhysBase(regs, i)) == SdmBase(regs, i) && FrameField(PhysMask(regs, i)) == SdmMask(regs, i)
  {
    hide Field, Byte, FrameField;
    assert IA32_MTRR_PHYSBASE0 + i * 2 == 0x200 + 2 * i && IA32_MTRR_PHYSMASK0 + i * 2 == 0x201 + 2 * i;
    ByteIsField(regs(0x200 + 2 * i), 0);
    RegisterFields(regs(0x200 + 2 * i));
    RegisterFields(regs(0x201 + 2 * i));
  }

  /** The decoder reads every variable range, and only registers that are there. */
  lemma DecodingRanges(regs: Msrs)
    ensures forall i :: 0 <= i < 255 ==> (VariableOn(regs, i) <==> SdmOn(regs, i))
    ensures forall i :: 0 <= i < 255 ==> FrameField(PhysMask(regs, i)) == SdmMask(regs, i)
  {
    hide VariableOn, SdmOn, FrameField, SdmMask;
    forall i | 0 <= i < 255
      ensures (VariableOn(regs, i) <==> SdmOn(regs, i)) && FrameField(PhysMask(regs, i)) == SdmMask(regs, i)
    {
      DecodingRange(regs, i);
    }
  }

  lemma ProgrammedMasks(regs: Msrs, maxPhyAddr: nat)
    requires Programmed(regs, maxPhyAddr)
    ensures MasksNonZero(regs)
  {
    hide FrameField, Byte, Pow2, Bsf, SdmFixedType, SdmCount, VariableCount, SdmOn, VariableOn, SdmMask, SdmBase, SdmRangeType;
    Decoding(regs);
    DecodingRanges(regs);
  }

  lemma ShlTwelve(x: nat)
    ensures Shl(x, 12) == x * 0x1000
  {
    hide Shl, Pow2;
    ShlIsProduct(x, 12);
    Pow2Values();
  }

  /** The mask test on addresses is the mask test on page frame numbers. */
  lemma MaskInFrames(a: nat, base: nat, mask: nat)
    ensures And(a, Shl(mask, 12)) == And(Shl(base, 12), Shl(mask, 12)) <==> InMask(a / 0x1000, base, mask)
  {
    var x := Above(a, 12);
    Pow2Values();
    AndShift(a, mask, 12);
    AndShift(Shl(base, 12), mask, 12);
    ShlTwelve(base);
    hide And, Pow2, Shl;
    assert Above(Shl(base, 12), 12) == base && x == a / 0x1000;
    ShlTwelve(And(x, mask));
    ShlTwelve(And(base, mask));
  }

  /** One decoded interval contains an address exactly when the processor's mask test matches it. */
  lemma EntryIsMatch(regs: Msrs, i: nat, maxPhyAddr: nat, a: nat)
    requires Programmed(regs, maxPhyAddr) && i < VariableCount(regs) && VariableOn(regs, i)
    requires a < Pow2(maxPhyAddr)
    ensures FrameField(PhysMask(regs, i)) != 0
    ensures VariableEntry(regs, i).Contains(a) <==> SdmMatches(regs, i, a)
    ensures VariableEntry(regs, i).end <= Pow2(maxPhyAddr)
  {
    hide And, Pow2, Bsf, Shl, FrameField, Byte, Contiguous, Aligned, Programmed, VariableEntry, InInterval, InMask;
    hide SdmOn, VariableOn, SdmMask, SdmBase, SdmRangeType, VariableCount;
    RangeIsProgrammed(regs, i, maxPhyAddr);
    DecodingRange(regs, i);
    var p := maxPhyAddr - 12;
    var base, mask := FrameField(PhysBase(regs, i)), FrameField(PhysMask(regs, i));
    FrameBelow(a, maxPhyAddr);
    MaskInFrames(a, base, mask);
    IntervalRefinesMask(a / 0x1000, base, mask, p);
    EntryInFrames(regs, i, a);
  }

  lemma RangeIsProgrammed(regs: Msrs, i: nat, maxPhyAddr: nat)
    requires Programmed(regs, maxPhyAddr) && i < VariableCount(regs) && VariableOn(regs, i)
    ensures 32 <= maxPhyAddr <= 48 && RangeProgrammed(regs, i, maxPhyAddr - 12) && FrameField(PhysMask(regs, i)) > 0
  {
    hide FrameField, Byte, Pow2, Bsf, SdmFixedType, SdmCount, VariableCount, SdmOn, VariableOn, SdmMask, SdmBase, SdmRangeType;
    Decoding(regs);
    DecodingRange(regs, i);
  }

  lemma FrameBelow(a: nat, maxPhyAddr: nat)
    requires 12 <= maxPhyAddr && a < Pow2(maxPhyAddr)
    ensures a / 0x1000 < Pow2(maxPhyAddr - 12) && Pow2(maxPhyAddr) == 0x1000 * Pow2(maxPhyAddr - 12)
  {
    hide Pow2;
    Pow2Values();
    Pow2Add(12, maxPhyAddr - 12);
  }

  lemma EntryInFrames(regs: Msrs, i: nat, a: nat)
    requires i < MAX_VARIABLE && FrameField(PhysMask(regs, i)) != 0
    ensures var base, mask := FrameField(PhysBase(regs, i)), FrameField(PhysMask(regs, i));
            && (VariableEntry(regs, i).Contains(a) <==> InInterval(a / 0x1000, base, mask))
            && VariableEntry(regs, i).end == (base + Pow2(Bsf(mask))) * 0x1000
  {
    hide FrameField, Byte, Pow2, Bsf;
  }

  // ------------------------------------------------- the scan against the rule

  /** Index of the fixed range that holds an address below 1 MiB. */
  function FixedIndex(a: nat): (e: nat)
    requires a < ONE_MIB
    ensures e < MAX_FIXED && FixedBegin(e) <= a < FixedBegin(e + 1)
  {
    if a < 0x80000 then a / 0x10000 else if a < 0xC0000 then 8 + (a - 0x80000) / 0x4000 else 24 + (a - 0xC0000) / 0x1000
  }

  /** Fixed ranges later in the table lie at higher addresses. */
  lemma {:induction false} FixedBeginMonotone(e: nat, f: nat)
    requires e <= f <= MAX_FIXED
    ensures FixedBegin(e) <= FixedBegin(f)
    decreases f - e
  {
    if e < f {
      FixedBeginMonotone(e + 1, f);
    }
  }

  /** A fixed range has the type the SDM gives each address in it. */
  lemma FixedEntryType(regs: Msrs, e: nat, a: nat)
    requires e < MAX_FIXED && FixedBegin(e) <= a < FixedBegin(e + 1)
    ensures a < ONE_MIB && FixedTable(regs, FIXED_BANKS)[e].typ == SdmFixedType(regs, a)
  {
    FixedTableShape(regs, FIXED_BANKS, e);
    FixedRegister(e, a);
    hide Byte, FixedTable, FixedBank, SdmFixedType;
    if e >= 24 {
      FixedType4K(regs, e - 24, a);
    } else if e >= 8 {
      FixedType16K(regs, e - 8, a);
    } else {
      FixedType64K(regs, e, a);
    }
  }

  lemma FixedType4K(regs: Msrs, e: nat, a: nat)
    requires e < 64 && 0xC0000 + e * 0x1000 <= a < 0xC0000 + (e + 1) * 0x1000
    ensures SdmFixedType(regs, a) == Byte(regs(0x268 + e / 8), e % 8)
  {
    hide Byte, SdmByte;
    SubBlock(a - 0xC0000, e, 0x1000);
    SdmByteIs(regs(0x268 + e / 8), e % 8);
  }

  lemma FixedType16K(regs: Msrs, e: nat, a: nat)
    requires e < 16 && 0x80000 + e * 0x4000 <= a < 0x80000 + (e + 1) * 0x4000
    ensures SdmFixedType(regs, a) == Byte(regs(0x258 + e / 8), e % 8)
  {
    hide Byte, SdmByte;
    SubBlock(a - 0x80000, e, 0x4000);
    SdmByteIs(regs(0x258 + e / 8), e % 8);
  }

  lemma FixedType64K(regs: Msrs, e: nat, a: nat)
    requires e < 8 && e * 0x10000 <= a < (e + 1) * 0x10000
    ensures SdmFixedType(regs, a) == Byte(regs(0x250), e)
  {
    hide Byte, SdmByte;
    DivModUnique(a, 0x10000, e, a - e * 0x10000);
    SdmByteIs(regs(0x250), e);
  }

  lemma SdmByteIs(w: u64, k: nat)
    requires k < 8
    ensures SdmByte(w, k) == Byte(w, k)
  {
    hide Byte, Field;
    ByteIsField(w, k);
  }

  lemma FixedBeginAligned(e: nat)
    ensures FixedBegin(e) % PAGE_4K == 0
  {
    if e < 8 {
    } else if e < 24 {
      DivModUnique(FixedBegin(e), PAGE_4K, 0x80 + (e - 8) * 4, 0);
    } else {
      DivModUnique(FixedBegin(e), PAGE_4K, 0xC0 + (e - 24), 0);
    }
  }

  lemma FixedRegister(e: nat, a: nat)
    requires e < MAX_FIXED
    ensures FixedBank(e / 8).msr == if e < 8 then 0x250 else if e < 24 then 0x258 + (e - 8) / 8 else 0x268 + (e - 24) / 8
    ensures e % 8 == if e < 8 then e else if e < 24 then (e - 8) % 8 else (e - 24) % 8
  {
  }

  /** Eight sub-ranges to a register. */
  lemma SubBlock(x: nat, e: nat, s: nat)
    requires (s == 0x4000 || s == 0x1000) && e * s <= x < (e + 1) * s
    ensures x / (8 * s) == e / 8 && x % (8 * s) / s == e % 8
  {
    DivModUnique(x, s, e, x - e * s);
    DivDiv(x, s, 8);
  }

  /** Every table decoded from programmed registers is proper. */
  lemma TableIsProper(regs: Msrs, maxPhyAddr: nat)
    requires Programmed(regs, maxPhyAddr)
    ensures MasksNonZero(regs) && Proper(TableOf(regs))
  {
    hide FixedPart, VariableTable, Programmed;
    ProgrammedMasks(regs, maxPhyAddr);
    var t := TableOf(regs);
    forall k | 0 <= k < |t|
      ensures t[k].enabled && ValidType(t[k].typ) && t[k].begin % PAGE_4K == 0 && t[k].end % PAGE_4K == 0
    {
      if k < |FixedPart(regs)| {
        ProperFixed(regs, maxPhyAddr, k);
      } else {
        var i := VariableOrigin(regs, k);
        ProperVariable(regs, maxPhyAddr, i);
      }
    }
  }

  lemma ProperFixed(regs: Msrs, maxPhyAddr: nat, k: nat)
    requires Programmed(regs, maxPhyAddr) && k < |FixedPart(regs)|
    ensures var e := FixedPart(regs)[k];
            e.enabled && e.fixed && ValidType(e.typ) && e.begin % PAGE_4K == 0 && e.end % PAGE_4K == 0
  {
    Decoding(regs);
    FixedTableShape(regs, FIXED_BANKS, k);
    FixedEntryType(regs, k, FixedBegin(k));
    FixedBeginAligned(k);
    FixedBeginAligned(k + 1);
    hide Byte, FixedTable, SdmFixedType, FrameField, FixedBegin;
  }

  lemma ProperVariable(regs: Msrs, maxPhyAddr: nat, i: nat)
    requires Programmed(regs, maxPhyAddr) && i < VariableCount(regs) && VariableOn(regs, i)
    ensures FrameField(PhysMask(regs, i)) != 0
    ensures var e := VariableEntry(regs, i);
            e.enabled && !e.fixed && ValidType(e.typ) && e.begin % PAGE_4K == 0 && e.end % PAGE_4K == 0
  {
    hide Byte, SdmFixedType, FrameField, Pow2, Bsf, Programmed, SdmRangeType, VariableOn, VariableCount, RangeSize;
    hide Contiguous, Aligned, SdmMask, SdmBase;
    RangeIsProgrammed(regs, i, maxPhyAddr);
    DecodingRange(regs, i);
    EntryAligned(regs, i);
  }

  /** The register an entry of the variable part was read from. */
  lemma VariableOrigin(regs: Msrs, k: nat) returns (i: nat)
    requires MasksNonZero(regs) && |FixedPart(regs)| <= k < |TableOf(regs)|
    ensures i < VariableCount(regs) && VariableOn(regs, i) && TableOf(regs)[k] == VariableEntry(regs, i)
  {
    hide FrameField, Byte, FixedPart, VariableEntry;
    var v := VariableTable(regs, VariableCount(regs));
    var e := v[k - |FixedPart(regs)|];
    VariableTableContents(regs, VariableCount(regs), e);
    i :| 0 <= i < VariableCount(regs) && VariableOn(regs, i) && e == VariableEntry(regs, i);
  }

  lemma EntryAligned(regs: Msrs, i: nat)
    requires i < MAX_VARIABLE && FrameField(PhysMask(regs, i)) != 0
    ensures VariableEntry(regs, i).begin % PAGE_4K == 0 && VariableEntry(regs, i).end % PAGE_4K == 0
  {
    hide FrameField, Byte, RangeSize;
  }

  /** The variable ranges of the table that contain an address are the ones the processor matches. */
  lemma TypesAgree(regs: Msrs, maxPhyAddr: nat, a: nat)
    requires Programmed(regs, maxPhyAddr) && a < Pow2(maxPhyAddr)
    ensures MasksNonZero(regs) && VariableTypes(TableOf(regs), 0, a) == SdmVariableTypes(regs, a)
  {
    hide Programmed, TableOf, SdmMatches, SdmCount, SdmRangeType, Pow2;
    ProgrammedMasks(regs, maxPhyAddr);
    forall x | x in VariableTypes(TableOf(regs), 0, a)
      ensures x in SdmVariableTypes(regs, a)
    {
      var k :| 0 <= k < |TableOf(regs)| && !TableOf(regs)[k].fixed && TableOf(regs)[k].Contains(a) && TableOf(regs)[k].typ == x;
      TypeFromRegister(regs, maxPhyAddr, a, k);
    }
    forall x | x in SdmVariableTypes(regs, a)
      ensures x in VariableTypes(TableOf(regs), 0, a)
    {
      var i :| 0 <= i < SdmCount(regs) && SdmMatches(regs, i, a) && SdmRangeType(regs, i) == x;
      var k := TypeInTable(regs, maxPhyAddr, a, i);
    }
  }

  lemma TypeFromRegister(regs: Msrs, maxPhyAddr: nat, a: nat, k: nat)
    requires Programmed(regs, maxPhyAddr) && MasksNonZero(regs) && a < Pow2(maxPhyAddr)
    requires k < |TableOf(regs)| && !TableOf(regs)[k].fixed && TableOf(regs)[k].Contains(a)
    ensures TableOf(regs)[k].typ in SdmVariableTypes(regs, a)
  {
    hide Programmed, FixedPart, VariableTable, SdmMatches, Byte, VariableOn, VariableCount, SdmCount, Pow2, FrameField, RangeSize;
    hide SdmRangeType, MasksNonZero;
    if k < |FixedPart(regs)| {
      ProperFixed(regs, maxPhyAddr, k);
    } else {
      var i := VariableOrigin(regs, k);
      EntryIsMatch(regs, i, maxPhyAddr, a);
      Decoding(regs);
      DecodingRange(regs, i);
    }
  }

  lemma MatchIsOn(regs: Msrs, i: nat, a: nat)
    requires i < 255 && SdmMatches(regs, i, a)
    ensures SdmOn(regs, i) && VariableOn(regs, i)
  {
    hide And, Shl, SdmOn, VariableOn;
    DecodingRange(regs, i);
  }

  lemma TypeInTable(regs: Msrs, maxPhyAddr: nat, a: nat, i: nat) returns (k: nat)
    requires Programmed(regs, maxPhyAddr) && MasksNonZero(regs) && a < Pow2(maxPhyAddr)
    requires i < SdmCount(regs) && SdmMatches(regs, i, a)
    ensures k < |TableOf(regs)| && !TableOf(regs)[k].fixed && TableOf(regs)[k].Contains(a)
    ensures TableOf(regs)[k].typ == SdmRangeType(regs, i)
  {
    hide Programmed, FixedPart, SdmMatches, Byte, VariableOn, VariableTable, VariableCount, Pow2, FrameField, RangeSize;
    hide SdmCount, SdmRangeType, SdmOn, MasksNonZero;
    Decoding(regs);
    DecodingRange(regs, i);
    MatchIsOn(regs, i, a);
    EntryIsMatch(regs, i, maxPhyAddr, a);
    var v := VariableTable(regs, VariableCount(regs));
    VariableTableContents(regs, VariableCount(regs), VariableEntry(regs, i));
    var j :| 0 <= j < |v| && v[j] == VariableEntry(regs, i);
    k := |FixedPart(regs)| + j;
  }

  /** A page-aligned range contains an address exactly when it contains its page. */
  lemma ContainsPage(e: Entry, a: nat)
    requires e.begin % PAGE_4K == 0 && e.end % PAGE_4K == 0
    ensures PageOf(a) % PAGE_4K == 0 && (e.Contains(a) <==> e.Contains(PageOf(a)))
  {
  }

  /** The query on a 4 KiB page gives every address in it the type the processor gives it. */
  lemma ScanIsSdm(regs: Msrs, maxPhyAddr: nat, a: u64)
    requires Programmed(regs, maxPhyAddr) && a < Pow2(maxPhyAddr) && SdmDefined(regs, a)
    ensures MasksNonZero(regs)
    ensures SdmType(regs, a, Scan(TableOf(regs), DefaultType(regs), PageOf(a), PAGE_4K))
  {
    hide Programmed, Pow2, SdmFixedOn, FixedOn, SdmDefault, DefaultType, SdmFixedType, SdmVariableTypes, TableOf, ScanFrom;
    hide Precedence, Proper;
    Decoding(regs);
    TableIsProper(regs, maxPhyAddr);
    ContainsPage(EMPTY, a);
    if FixedOn(regs) && a < ONE_MIB {
      ScanIsFixed(regs, maxPhyAddr, a);
    } else {
      ScanIsVariable(regs, maxPhyAddr, a);
    }
  }

  lemma ScanIsFixed(regs: Msrs, maxPhyAddr: nat, a: u64)
    requires Programmed(regs, maxPhyAddr) && MasksNonZero(regs) && Proper(TableOf(regs)) && FixedOn(regs) && a < ONE_MIB
    ensures Scan(TableOf(regs), DefaultType(regs), PageOf(a), PAGE_4K) == SdmFixedType(regs, a)
  {
    hide FixedOn, FixedTable, VariableTable, SdmFixedType, FixedIndex, Byte, ScanFrom, Programmed;
    var t := TableOf(regs);
    var e := FixedIndex(a);
    FixedEntryType(regs, e, a);
    forall j | 0 <= j <= e
      ensures t[j].fixed && (t[j].Contains(PageOf(a)) <==> j == e)
    {
      FixedTableShape(regs, FIXED_BANKS, j);
      FixedBeginMonotone(j, e);
      if j < e { FixedBeginMonotone(j + 1, e); }
      hide FixedBegin;
      ContainsPage(t[j], a);
    }
    ContainsPage(t[e], a);
    ScanFixed(t, DefaultType(regs), PageOf(a), 0, e);
  }

  lemma ScanIsVariable(regs: Msrs, maxPhyAddr: nat, a: u64)
    requires Programmed(regs, maxPhyAddr) && MasksNonZero(regs) && Proper(TableOf(regs))
    requires a < Pow2(maxPhyAddr) && SdmDefined(regs, a) && !(FixedOn(regs) && a < ONE_MIB)
    ensures Precedence(SdmVariableTypes(regs, a), DefaultType(regs), Scan(TableOf(regs), DefaultType(regs), PageOf(a), PAGE_4K))
  {
    hide SdmVariableTypes, FixedPart, VariableTable, FixedOn, Byte, ScanFrom, Programmed, Pow2, TableOf, SdmFixedOn;
    Decoding(regs);
    var t := TableOf(regs);
    TypesAgree(regs, maxPhyAddr, a);
    FixedBelowMiB(regs, maxPhyAddr, a);
    ContainsPage(EMPTY, a);
    assert VariableTypes(t, 0, a) == VariableTypes(t, 0, PageOf(a)) by {
      forall k | 0 <= k < |t|
        ensures t[k].Contains(a) <==> t[k].Contains(PageOf(a))
      {
        ContainsPage(t[k], a);
      }
    }
    ScanIsPrecedence(t, DefaultType(regs), PageOf(a), 0);
  }

  /** Above 1 MiB, or with fixed ranges off, no fixed range matches. */
  lemma FixedBelowMiB(regs: Msrs, maxPhyAddr: nat, a: u64)
    requires Programmed(regs, maxPhyAddr) && MasksNonZero(regs) && !(FixedOn(regs) && a < ONE_MIB)
    ensures FixedMisses(TableOf(regs), 0, PageOf(a))
  {
    hide Byte, Programmed, FixedTable, VariableTable, FixedOn, FixedBegin, FixedBank;
    var t := TableOf(regs);
    assert PageOf(a) >= ONE_MIB <==> a >= ONE_MIB;
    forall k | 0 <= k < |t| && t[k].fixed
      ensures !t[k].Contains(PageOf(a))
    {
      if k < |FixedPart(regs)| {
        FixedTableShape(regs, FIXED_BANKS, k);
      } else {
        var i := VariableOrigin(regs, k);
      }
    }
  }

  /** With fixed ranges on, the first 2 MiB never get one type. */
  lemma PageZeroSplits(regs: Msrs)
    requires MasksNonZero(regs) && FixedOn(regs)
    ensures Scan(TableOf(regs), DefaultType(regs), 0, PAGE_2M) == INVALID
  {
    FixedTableShape(regs, FIXED_BANKS, 0);
    hide Byte, FixedTable, VariableTable, FixedOn;
    assert TableOf(regs)[0] == FixedTable(regs, FIXED_BANKS)[0];
  }
}

/** `check_segment_access_rights` and `cpu_vmxcheck_guest` of hypervisor/vmxcheck.cc: early returns over the
    bit fields of machine words, proved against the predicates on single bits. */
module VmxCode {
  import opened Bits
  import opened BitOps
  import opened VmxCheck

  /** What `cpu_vmxread` returns for each field. */
  type RawVmcs = VmcsField -> u64

  /** The same, as bits. */
  function Seen(raw: RawVmcs): Vmcs { (f: VmcsField) => (i: nat) => BitSet(raw(f), i) }

  // ------------------------------------------------------------ fields and bits

  /** A field is the field one bit narrower and its top bit. */
  lemma FieldStep(w: nat, lo: nat, width: nat)
    ensures Field(w, lo, width + 1) == Field(w, lo, width) + if BitSet(w, lo + width) then Pow2(width) else 0
  {
    var y := Above(w, lo);
    Pow2Add(lo, width);
    Pow2Add(width, 1);
    hide Pow2;
    Pow2Values();
    DivDiv(y, Pow2(width), 2);
    DivDiv(w, Pow2(lo), Pow2(width));
    BitValue(w, lo + width);
  }

  lemma BitValue(w: nat, i: nat)
    ensures Field(w, i, 1) == if BitSet(w, i) then 1 else 0
  {
    Pow2Values();
  }

  lemma EmptyField(w: nat, lo: nat)
    ensures Field(w, lo, 0) == 0
  {
  }

  /** A field is zero exactly when its bits are clear. */
  lemma {:induction false} FieldClear(w: nat, lo: nat, width: nat)
    ensures Field(w, lo, width) == 0 <==> forall i :: lo <= i < lo + width ==> !BitSet(w, i)
  {
    hide Field, BitSet;
    if width == 0 {
      EmptyField(w, lo);
    } else {
      FieldStep(w, lo, width - 1);
      FieldClear(w, lo, width - 1);
    }
  }

  /** Truncation to 16 or 32 bits keeps the fields below. */
  lemma FieldTruncated(w: nat, bits: nat, lo: nat, width: nat)
    requires lo + width <= bits
    ensures Field(w % Pow2(bits), lo, width) == Field(w, lo, width)
  {
    hide Pow2;
    Pow2Add(width, bits - lo - width);
    Pow2Add(lo, bits - lo);
    LowDigit(w, Pow2(lo), Pow2(width), Pow2(bits - lo - width));
  }

  lemma BitTruncated(w: nat, bits: nat, i: nat)
    requires i < bits
    ensures BitSet(w % Pow2(bits), i) <==> BitSet(w, i)
  {
    FieldTruncated(w, bits, i, 1);
  }

  lemma SmallPowersOfTwo()
    ensures Pow2(0) == 1 && Pow2(1) == 2 && Pow2(2) == 4 && Pow2(3) == 8
  {
  }

  lemma TwoBits(w: nat, lo: nat)
    ensures Field(w, lo, 2) == Bit(BitSet(w, lo), 1) + Bit(BitSet(w, lo + 1), 2)
  {
    hide Field, BitSet, Pow2;
    SmallPowersOfTwo();
    EmptyField(w, lo);
    FieldStep(w, lo, 0);
    FieldStep(w, lo, 1);
  }

  lemma FourBits(w: nat)
    ensures Field(w, 0, 4) == Bit(BitSet(w, 0), 1) + Bit(BitSet(w, 1), 2) + Bit(BitSet(w, 2), 4) + Bit(BitSet(w, 3), 8)
  {
    hide Field, BitSet, Pow2;
    SmallPowersOfTwo();
    TwoBits(w, 0);
    FieldStep(w, 0, 2);
    FieldStep(w, 0, 3);
  }

  /** The two limit masks of `is_flag_set`. */
  lemma LimitMasks(limit: u32)
    ensures And(limit, 0xFFF) != 0 <==> Field(limit, 0, 12) != 0
    ensures And(limit, 0xFFF0_0000) != 0 <==> Field(limit, 20, 12) != 0
  {
    hide And, Pow2;
    Pow2Values();
    PowZeroTwenty();
    AndLowMask(limit, 12);
    AndContiguous(limit, 32, 20);
    DivMod(limit, 0x10_0000);
    DivModUnique(limit / 0x10_0000, 0x1000, 0, limit / 0x10_0000);
  }

  lemma PowZeroTwenty()
    ensures Pow2(0) == 1 && Pow2(20) == 0x10_0000
  {
    Pow2Values();
    Pow2Add(12, 8);
  }

  // --------------------------------------------------------------- access rights

  /** The fields of access rights, truncated to 32 bits, as bits of the VMCS field. */
  lemma AccessFields(w: u64, ar: u32, b: Word)
    requires ar == w % U32_SIZE && forall i :: b(i) == BitSet(w, i)
    ensures Field(ar, 0, 4) == TypeOf(b) && Field(ar, 5, 2) == Dpl(b)
    ensures forall i :: 0 <= i < 32 ==> (Field(ar, i, 1) == 1 <==> b(i))
    ensures (Field(ar, 8, 4) == 0 <==> Clear(b, 8, 12)) && (Field(ar, 17, 15) == 0 <==> Clear(b, 17, 32))
  {
    hide Field, Pow2, BitSet;
    Pow2Values();
    TruncatedBits(w, 32);
    FourBits(ar);
    TwoBits(ar, 5);
    FieldClear(ar, 8, 4);
    FieldClear(ar, 17, 15);
    BitIsField(ar);
  }

  lemma BitIsField(w: nat)
    ensures forall i :: 0 <= i ==> (Field(w, i, 1) == 1 <==> BitSet(w, i))
  {
    hide Field;
  }

  lemma TruncatedBits(w: u64, bits: nat)
    ensures forall i :: 0 <= i < bits ==> (BitSet(w % Pow2(bits), i) <==> BitSet(w, i))
  {
    hide BitSet, Pow2;
    forall i | 0 <= i < bits
      ensures BitSet(w % Pow2(bits), i) <==> BitSet(w, i)
    {
      BitTruncated(w, bits, i);
    }
  }

  lemma LimitFields(w: u64, limit: u32, b: Word)
    requires limit == w % U32_SIZE && forall i :: b(i) == BitSet(w, i)
    ensures And(limit, 0xFFF) == 0 <==> Clear(b, 0, 12)
    ensures And(limit, 0xFFF0_0000) == 0 <==> Clear(b, 20, 32)
  {
    hide Field, Pow2, BitSet, And;
    Pow2Values();
    TruncatedBits(w, 32);
    LimitMasks(limit);
    FieldClear(limit, 0, 12);
    FieldClear(limit, 20, 12);
  }

  lemma SelectorFields(w: u64, selector: u16, b: Word)
    requires selector == w % U16_SIZE && forall i :: b(i) == BitSet(w, i)
    ensures Field(selector, 0, 2) == Rpl(b) && (Field(selector, 2, 1) == 1 <==> b(2))
  {
    hide Field, Pow2, BitSet;
    Pow2Values();
    TruncatedBits(w, 16);
    TwoBits(selector, 0);
    BitIsField(selector);
  }

  /** `is_flag_set` with a single bit. */
  lemma {:induction false} FlagIsBit(x: nat, k: nat)
    ensures And(x, Pow2(k)) != 0 <==> BitSet(x, k)
  {
    hide And, BitSet;
    if k == 0 {
      LowFlag(x);
    } else {
      AndEven(x, Pow2(k - 1));
      BitHalf(x, k);
      FlagIsBit(x / 2, k - 1);
    }
  }

  lemma LowFlag(x: nat)
    ensures Pow2(0) == 1 && (And(x, 1) != 0 <==> BitSet(x, 0))
  {
    hide And;
    AndLowMask(x, 1);
    Pow2Values();
  }

  /** The accessed, readable and code bits of a type. */
  lemma TypeFlags(b: Word)
    ensures And(TypeOf(b), 1) != 0 <==> b(0)
    ensures And(TypeOf(b), 2) != 0 <==> b(1)
    ensures And(TypeOf(b), 8) != 0 <==> b(3)
  {
    hide And, Pow2;
    SmallPowersOfTwo();
    var t := TypeOf(b);
    FlagIsBit(t, 0);
    FlagIsBit(t, 1);
    FlagIsBit(t, 3);
    assert t % 2 == Bit(b(0), 1) && t / 2 % 2 == Bit(b(1), 1) && t / 8 % 2 == Bit(b(3), 1);
  }

  // ----------------------------------------------------------------------- code

  /** The first switch of `check_segment_access_rights`: the type. */
  method CheckType(seg: SegmentName, ar: u32, unrestricted: bool, ghost w: u64, ghost b: Word) returns (ok: bool)
    requires ar == w % U32_SIZE && forall i :: b(i) == BitSet(w, i)
    ensures ok <==> TypeChecked(seg, b, unrestricted)
  {
    hide Field, And, BitSet, Clear, TypeOf, Dpl;
    AccessFields(w, ar, b);
    TypeFlags(b);
    var typ := Field(ar, 0, 4);
    match seg {
      case Cs =>
        if !unrestricted {
          if !(typ == 9 || typ == 11 || typ == 13 || typ == 15) { return false; }
        } else {
          if !(typ == 3 || typ == 9 || typ == 11 || typ == 13 || typ == 15) { return false; }
        }
      case Ss =>
        if Field(ar, 16, 1) != 1 {
          if !(typ == 3 || typ == 7) { return false; }
        }
      case _ =>
        if Field(ar, 16, 1) != 1 {
          if And(typ, 1) == 0 { return false; }
          if And(typ, 8) != 0 {
            if And(typ, 2) == 0 { return false; }
          }
        }
    }
    return true;
  }

  /** The second switch: the privilege level. */
  method CheckDpl(raw: RawVmcs, seg: SegmentName, ar: u32, selector: u16, unrestricted: bool) returns (ok: bool)
    requires ar == raw(AccessRights(seg)) % U32_SIZE && selector == raw(Selector(seg)) % U16_SIZE
    ensures ok <==> DplChecked(Seen(raw), seg, Seen(raw)(AccessRights(seg)), unrestricted)
  {
    hide Field, BitSet, Clear, TypeOf, Dpl, Rpl;
    ghost var v := Seen(raw);
    var ss, cs := raw(AccessRights(Ss)) % U32_SIZE, raw(AccessRights(Cs)) % U32_SIZE;
    AccessFields(raw(AccessRights(seg)), ar, v(AccessRights(seg)));
    AccessFields(raw(AccessRights(Ss)), ss, v(AccessRights(Ss)));
    AccessFields(raw(AccessRights(Cs)), cs, v(AccessRights(Cs)));
    SelectorFields(raw(Selector(seg)), selector, v(Selector(seg)));
    BitIsField(raw(Cr0));
    var typ, dpl, rpl := Field(ar, 0, 4), Field(ar, 5, 2), Field(selector, 0, 2);
    match seg {
      case Cs =>
        if typ == 9 || typ == 11 {
          if dpl != Field(ss, 5, 2) { return false; }
        } else {
          return false;
        }
      case Ss =>
        if !unrestricted {
          if dpl != rpl { return false; }
        }
        if Field(cs, 0, 4) == 3 || Field(raw(Cr0), 0, 1) == 1 {
          if dpl != 0 { return false; }
        }
      case _ =>
        if !unrestricted && Field(ar, 16, 1) != 1 && typ * 0x800 != 0 {
          if dpl < rpl { return false; }
        }
    }
    return true;
  }

  /** The granularity check, of a segment and of TR. */
  method CheckGranularity(ar: u32, limit: u32, ghost w: u64, ghost b: Word, ghost wl: u64, ghost bl: Word) returns (ok: bool)
    requires ar == w % U32_SIZE && forall i :: b(i) == BitSet(w, i)
    requires limit == wl % U32_SIZE && forall i :: bl(i) == BitSet(wl, i)
    ensures ok <==> GranularityWritten(bl, Granular(b))
  {
    hide Field, And, BitSet, Clear, TypeOf, Dpl;
    AccessFields(w, ar, b);
    LimitFields(wl, limit, bl);
    if And(limit, 0xFFF) == 0 {
      if Field(ar, 15, 1) == 1 { return false; }
    }
    if And(limit, 0xFFF0_0000) != 0 {
      if Field(ar, 15, 1) != 1 { return false; }
    }
    return true;
  }

  /** `check_segment_access_rights`. */
  method CheckSegment(raw: RawVmcs, seg: SegmentName, ar: u32, limit: u32, selector: u16, ia32e: bool, unrestricted: bool)
    returns (ok: bool)
    requires ar == raw(AccessRights(seg)) % U32_SIZE && limit == raw(Limit(seg)) % U32_SIZE
    requires selector == raw(Selector(seg)) % U16_SIZE
    ensures ok <==> SegmentChecked(Seen(raw), seg, ia32e, unrestricted)
  {
    hide Field, BitSet, Clear, TypeOf, Dpl, TypeChecked, DplChecked, GranularityWritten;
    ghost var w, b := raw(AccessRights(seg)), Seen(raw)(AccessRights(seg));
    AccessFields(w, ar, b);
    var good := CheckType(seg, ar, unrestricted, w, b);
    if !good { return false; }
    var used := seg == Cs || Field(ar, 16, 1) != 1;
    if used {
      if Field(ar, 4, 1) != 1 { return false; }
    }
    good := CheckDpl(raw, seg, ar, selector, unrestricted);
    if !good { return false; }
    if used {
      if Field(ar, 7, 1) != 1 { return false; }
    }
    if used {
      if !(Field(ar, 8, 4) == 0 && Field(ar, 17, 15) == 0) { return false; }
    }
    if seg == Cs {
      if ia32e && Field(ar, 13, 1) == 1 {
        if Field(ar, 14, 1) == 1 { return false; }
      }
    }
    if used {
      good := CheckGranularity(ar, limit, w, b, raw(Limit(seg)), Seen(raw)(Limit(seg)));
      if !good { return false; }
    }
    return true;
  }

  // -------------------------------------------------------------------- the guest

  lemma WordIsField(w: u64)
    ensures Field(w, 0, 64) == w && (Field(w, 2, 62) == 0 <==> w < 4) && (Field(w, 1, 63) == 0 <==> w < 2)
  {
    hide Pow2;
    Pow2Values();
    SmallPowersOfTwo();
    Pow2Add(2, 62);
    Pow2Add(1, 63);
    DivModUnique(w, U64_SIZE, 0, w);
    HighPart(w, 4, Pow2(62));
    HighPart(w, 2, Pow2(63));
  }

  lemma HighPart(w: nat, p: nat, q: nat)
    requires p > 0 && q > 0 && w < p * q
    ensures w / p % q == 0 <==> w < p
  {
    DivMod(w, p);
    if w / p >= q { MulLe(q, w / p, p); }
    DivNonNegative(w, p);
    DivModUnique(w / p, q, 0, w / p);
    if w < p { DivModUnique(w, p, 0, w); }
    if w / p == 0 { assert w == w % p; }
  }

  /** The four activity states. */
  lemma ActivityBits(w: u64, b: Word)
    requires forall i :: b(i) == BitSet(w, i)
    ensures (w < 4 <==> Clear(b, 2, 64)) && (w == 0 <==> Clear(b, 0, 64)) && (w == 1 <==> b(0) && Clear(b, 1, 64))
  {
    hide Field, BitSet, Pow2;
    WordIsField(w);
    FieldClear(w, 2, 62);
    FieldClear(w, 1, 63);
    FieldClear(w, 0, 64);
    BitIsField(w);
    if w < 2 { LowBit(w); }
  }

  lemma LowBit(w: nat)
    requires w < 2
    ensures BitSet(w, 0) <==> w == 1
  {
    Pow2Values();
    SmallPowersOfTwo();
  }

  /** A one-bit field of a VMCS field is its bit; a wider one is zero exactly when its bits are. */
  lemma SeenBit(raw: RawVmcs, f: VmcsField, i: nat)
    ensures Field(raw(f), i, 1) == 1 <==> Seen(raw)(f)(i)
  {
  }

  lemma SeenClear(raw: RawVmcs, f: VmcsField, lo: nat, width: nat)
    ensures Field(raw(f), lo, width) == 0 <==> Clear(Seen(raw)(f), lo, lo + width)
  {
    hide Field, BitSet;
    var b := Seen(raw)(f);
    assert forall i: nat :: b(i) == BitSet(raw(f), i);
    FieldClear(raw(f), lo, width);
  }

  /** The controls and control registers. */
  method CheckControls(raw: RawVmcs, ia32e: bool, unrestricted: bool) returns (ok: bool)
    requires ia32e == Ia32eGuest(Seen(raw)) && unrestricted == Unrestricted(Seen(raw))
    ensures ok <==> ControlRegistersChecked(Seen(raw)) && EferChecked(Seen(raw))
                    && !Seen(raw)(EntryControls)(16) && !Seen(raw)(EntryControls)(18) && !Seen(raw)(EntryControls)(20)
  {
    hide Field, BitSet, Seen, EferChecked, Unrestricted;
    SeenBit(raw, Cr0, 31);
    SeenBit(raw, Cr0, 0);
    SeenBit(raw, Cr4, 5);
    SeenBit(raw, EntryControls, 13);
    SeenBit(raw, EntryControls, 16);
    SeenBit(raw, EntryControls, 18);
    SeenBit(raw, EntryControls, 20);
    var entry, cr0, cr4 := raw(EntryControls), raw(Cr0), raw(Cr4);
    if Field(cr0, 31, 1) == 1 && !unrestricted {
      if Field(cr0, 0, 1) != 1 { return false; }
    }
    if Field(entry, 13, 1) == 1 { return false; }
    if ia32e {
      if Field(cr0, 31, 1) != 1 { return false; }
      if Field(cr4, 5, 1) != 1 { return false; }
    }
    var good := CheckEfer(raw, ia32e);
    if !good { return false; }
    if Field(entry, 16, 1) == 1 { return false; }
    if Field(entry, 18, 1) == 1 { return false; }
    if Field(entry, 20, 1) == 1 { return false; }
    return true;
  }

  /** EFER, if it is loaded. */
  method CheckEfer(raw: RawVmcs, ia32e: bool) returns (ok: bool)
    requires ia32e == Ia32eGuest(Seen(raw))
    ensures ok <==> EferChecked(Seen(raw))
  {
    hide Field, BitSet, Seen, Clear;
    SeenBit(raw, EntryControls, 15);
    SeenBit(raw, Cr0, 31);
    SeenBit(raw, Efer, 8);
    SeenBit(raw, Efer, 9);
    SeenBit(raw, Efer, 10);
    SeenClear(raw, Efer, 1, 7);
    SeenClear(raw, Efer, 12, 52);
    if Field(raw(EntryControls), 15, 1) == 1 {
      var efer := raw(Efer);
      if Field(efer, 1, 7) != 0 { return false; }
      if Field(efer, 9, 1) == 1 { return false; }
      if Field(efer, 12, 52) != 0 { return false; }
      if (Field(efer, 10, 1) == 1) != ia32e { return false; }
      if Field(raw(Cr0), 31, 1) == 1 {
        if (Field(efer, 10, 1) == 1) != (Field(efer, 8, 1) == 1) { return false; }
      }
    }
    return true;
  }

  /** The task register. */
  method CheckTask(raw: RawVmcs, ia32e: bool) returns (ok: bool)
    requires ia32e == Ia32eGuest(Seen(raw))
    ensures ok <==> TrChecked(Seen(raw))
  {
    hide Field, BitSet, Clear, TypeOf, Dpl, GranularityWritten;
    ghost var w, b := raw(TrAccessRights), Seen(raw)(TrAccessRights);
    var ar, limit := raw(TrAccessRights) % U32_SIZE, raw(TrLimit) % U32_SIZE;
    AccessFields(w, ar, b);
    if ia32e {
      if Field(ar, 0, 4) != 11 { return false; }
    } else {
      return false;
    }
    if Field(ar, 4, 1) == 1 { return false; }
    if Field(ar, 7, 1) != 1 { return false; }
    if Field(ar, 8, 4) != 0 { return false; }
    if Field(ar, 17, 15) != 0 { return false; }
    if Field(ar, 16, 1) == 1 { return false; }
    ok := CheckGranularity(ar, limit, w, b, raw(TrLimit), Seen(raw)(TrLimit));
  }

  /** The flags. */
  method CheckFlags(raw: RawVmcs) returns (ok: bool)
    ensures ok <==> RflagsChecked(Seen(raw))
  {
    hide Field, BitSet, Seen, Clear;
    var flags := raw(Rflags);
    SeenBit(raw, Rflags, 1);
    SeenBit(raw, Rflags, 3);
    SeenBit(raw, Rflags, 5);
    SeenBit(raw, Rflags, 15);
    SeenClear(raw, Rflags, 22, 42);
    return Field(flags, 3, 1) != 1 && Field(flags, 5, 1) != 1 && Field(flags, 15, 1) != 1 && Field(flags, 22, 42) == 0
        && Field(flags, 1, 1) == 1;
  }

  /** Activity and interruptibility. */
  method CheckActivity(raw: RawVmcs) returns (ok: bool)
    ensures ok <==> NonRegisterChecked(Seen(raw))
  {
    hide Field, BitSet, Seen, Clear, Dpl;
    var flags, inter, activity := raw(Rflags), raw(Interruptibility), raw(Activity);
    var ss := raw(AccessRights(Ss)) % U32_SIZE;
    SeenBit(raw, Rflags, 9);
    SeenBit(raw, Interruptibility, 0);
    SeenBit(raw, Interruptibility, 1);
    SeenBit(raw, Interruptibility, 4);
    SeenActivity(raw);
    SeenDpl(raw, ss);
    if !(activity == 0 || activity == 1 || activity == 2 || activity == 3) { return false; }
    if Field(ss, 5, 2) != 0 {
      if activity == 1 { return false; }
    }
    if Field(inter, 0, 1) == 1 || Field(inter, 1, 1) == 1 {
      if activity == 0 { return false; }
    }
    if Field(flags, 9, 1) != 1 {
      if Field(inter, 0, 1) == 1 { return false; }
    }
    if Field(inter, 4, 1) == 1 {
      if Field(inter, 1, 1) == 1 { return false; }
    }
    return true;
  }

  lemma SeenActivity(raw: RawVmcs)
    ensures (raw(Activity) < 4 <==> Clear(Seen(raw)(Activity), 2, 64))
    ensures (raw(Activity) == 0 <==> IsActive(Seen(raw))) && (raw(Activity) == 1 <==> IsHalted(Seen(raw)))
  {
    hide BitSet, Clear;
    ActivityBits(raw(Activity), Seen(raw)(Activity));
  }

  lemma SeenDpl(raw: RawVmcs, ss: u32)
    requires ss == raw(AccessRights(Ss)) % U32_SIZE
    ensures Field(ss, 5, 2) == Dpl(Seen(raw)(AccessRights(Ss)))
  {
    hide Field, BitSet, Clear, Dpl;
    AccessFields(raw(AccessRights(Ss)), ss, Seen(raw)(AccessRights(Ss)));
  }

  /** One call of `check_segment_access_rights`, with the fields of the segment truncated to its parameters. */
  method CheckNamed(raw: RawVmcs, seg: SegmentName, ia32e: bool, unrestricted: bool) returns (ok: bool)
    ensures ok <==> SegmentChecked(Seen(raw), seg, ia32e, unrestricted)
  {
    hide SegmentChecked, Seen;
    ok := CheckSegment(raw, seg, raw(AccessRights(seg)) % U32_SIZE, raw(Limit(seg)) % U32_SIZE,
                       raw(Selector(seg)) % U16_SIZE, ia32e, unrestricted);
  }

  /** The six calls. */
  method CheckSegments(raw: RawVmcs, ia32e: bool, unrestricted: bool) returns (ok: bool)
    ensures ok <==> forall seg :: SegmentChecked(Seen(raw), seg, ia32e, unrestricted)
  {
    hide SegmentChecked, Seen;
    ok := CheckNamed(raw, Cs, ia32e, unrestricted);
    if !ok { return; }
    ok := CheckNamed(raw, Ss, ia32e, unrestricted);
    if !ok { return; }
    ok := CheckNamed(raw, Ds, ia32e, unrestricted);
    if !ok { return; }
    ok := CheckNamed(raw, Es, ia32e, unrestricted);
    if !ok { return; }
    ok := CheckNamed(raw, Fs, ia32e, unrestricted);
    if !ok { return; }
    ok := CheckNamed(raw, Gs, ia32e, unrestricted);
    if ok {
      forall seg
        ensures SegmentChecked(Seen(raw), seg, ia32e, unrestricted)
      {
        assert seg == Cs || seg == Ss || seg == Ds || seg == Es || seg == Fs || seg == Gs;
      }
    }
  }

  /** The selectors of TR and LDTR. */
  method CheckSelectors(raw: RawVmcs) returns (ok: bool)
    ensures ok <==> !Seen(raw)(TrSelector)(2) && (!Unusable(Seen(raw)(LdtrAccessRights)) ==> !Seen(raw)(LdtrSelector)(2))
  {
    hide Field, BitSet, Clear, TypeOf, Dpl, Rpl;
    var tr, ldtr := raw(TrSelector) % U16_SIZE, raw(LdtrSelector) % U16_SIZE;
    SelectorFields(raw(TrSelector), tr, Seen(raw)(TrSelector));
    SelectorFields(raw(LdtrSelector), ldtr, Seen(raw)(LdtrSelector));
    if Field(tr, 2, 1) == 1 { return false; }
    var access := raw(LdtrAccessRights) % U32_SIZE;
    AccessFields(raw(LdtrAccessRights), access, Seen(raw)(LdtrAccessRights));
    if Field(access, 16, 1) != 1 {
      if Field(ldtr, 2, 1) == 1 { return false; }
    }
    return true;
  }

  /** `cpu_vmxcheck_guest`: accepts exactly the guests the rules describe. */
  method CheckGuest(raw: RawVmcs) returns (ok: bool)
    ensures ok <==> AgreedRules(Seen(raw)) && WrittenDeviations(Seen(raw)) && Supported(Seen(raw))
  {
    hide Field, BitSet, Seen, SegmentChecked, ControlRegistersChecked, EferChecked, TrChecked, RflagsChecked, NonRegisterChecked;
    hide AgreedRules, WrittenDeviations, Supported;
    AcceptanceExactly(Seen(raw));
    SeenBit(raw, EntryControls, 9);
    SeenBit(raw, ProcControls, 31);
    SeenBit(raw, ProcControls2, 7);
    var ia32e := Field(raw(EntryControls), 9, 1) == 1;
    var unrestricted := Field(raw(ProcControls), 31, 1) == 1 && Field(raw(ProcControls2), 7, 1) == 1;
    var good := CheckControls(raw, ia32e, unrestricted);
    if !good { return false; }
    good := CheckSelectors(raw);
    if !good { return false; }
    good := CheckSegments(raw, ia32e, unrestricted);
    if !good { return false; }
    good := CheckTask(raw, ia32e);
    if !good { return false; }
    good := CheckFlags(raw);
    if !good { return false; }
    ok := CheckActivity(raw);
  }
}

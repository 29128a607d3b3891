/** The VM-entry guest-state checks of hypervisor/vmxcheck.cc, over an arbitrary VMCS.  Bit positions
    are those of Intel SDM Vol. 3C sections 24.4 and 26.3.1. */
module VmxCheck {
  datatype SegmentName = Cs | Ss | Ds | Es | Fs | Gs

  datatype VmcsField =
    | Cr0 | Cr4 | Efer | Rflags
    | EntryControls | ProcControls | ProcControls2
    | Interruptibility | Activity
    | AccessRights(seg: SegmentName) | Limit(seg: SegmentName) | Selector(seg: SegmentName)
    | TrAccessRights | TrLimit | TrSelector | LdtrAccessRights | LdtrSelector

  /** A 64-bit value, as its bits. */
  type Word = nat -> bool

  /** What `cpu_vmxread` returns for each field. */
  type Vmcs = VmcsField -> Word

  /** No bit from `lo` up to but excluding `hi` is set. */
  predicate Clear(w: Word, lo: nat, hi: nat)
  {
    forall i :: lo <= i < hi ==> !w(i)
  }

  function Bit(b: bool, weight: nat): nat { if b then weight else 0 }

  // ------------------------------------------------------------ access rights

  function TypeOf(ar: Word): nat { Bit(ar(0), 1) + Bit(ar(1), 2) + Bit(ar(2), 4) + Bit(ar(3), 8) }

  function Dpl(ar: Word): nat { Bit(ar(5), 1) + Bit(ar(6), 2) }

  function Rpl(selector: Word): nat { Bit(selector(0), 1) + Bit(selector(1), 2) }

  predicate Unusable(ar: Word) { ar(16) }

  predicate Granular(ar: Word) { ar(15) }

  /** Types 9 and 11: execute-only and execute-read code, accessed. */
  predicate PlainCode(typ: nat) { typ == 9 || typ == 11 }

  /** Types 13 and 15: the conforming forms. */
  predicate ConformingCode(typ: nat) { typ == 13 || typ == 15 }

  /** The granularity checks as written: G must be clear if all low limit bits are zero, and set if
      any high limit bit is. */
  predicate GranularityWritten(limit: Word, g: bool)
  {
    (Clear(limit, 0, 12) ==> !g) && (!Clear(limit, 20, 32) ==> g)
  }

  /** The rule of section 26.3.1.2: G must be clear if any low limit bit is zero. */
  predicate GranularitySdm(limit: Word, g: bool)
  {
    ((exists i :: 0 <= i < 12 && !limit(i)) ==> !g) && (!Clear(limit, 20, 32) ==> g)
  }

  /** The first switch of `check_segment_access_rights`. */
  predicate TypeChecked(seg: SegmentName, ar: Word, unrestricted: bool)
  {
    match seg
    case Cs => PlainCode(TypeOf(ar)) || ConformingCode(TypeOf(ar)) || (unrestricted && TypeOf(ar) == 3)
    case Ss => Unusable(ar) || TypeOf(ar) == 3 || TypeOf(ar) == 7
    case _ => Unusable(ar) || (ar(0) && (ar(3) ==> ar(1)))
  }

  /** The second switch.  The source shifts the type left by 11 to test it: any type but 0 passes. */
  predicate DplChecked(v: Vmcs, seg: SegmentName, ar: Word, unrestricted: bool)
  {
    var rpl := Rpl(v(Selector(seg)));
    match seg
    case Cs => PlainCode(TypeOf(ar)) && Dpl(ar) == Dpl(v(AccessRights(Ss)))
    case Ss => (!unrestricted ==> Dpl(ar) == rpl) && (TypeOf(v(AccessRights(Cs))) == 3 || v(Cr0)(0) ==> Dpl(ar) == 0)
    case _ => !unrestricted && !Unusable(ar) && TypeOf(ar) != 0 ==> Dpl(ar) >= rpl
  }

  /** `check_segment_access_rights`, with the fields of the named segment. */
  predicate SegmentChecked(v: Vmcs, seg: SegmentName, ia32e: bool, unrestricted: bool)
  {
    var ar := v(AccessRights(seg));
    var used := seg == Cs || !Unusable(ar);
    && TypeChecked(seg, ar, unrestricted)
    && (used ==> ar(4))
    && DplChecked(v, seg, ar, unrestricted)
    && (used ==> ar(7))
    && (used ==> Clear(ar, 8, 12) && Clear(ar, 17, 32))
    && (seg == Cs && ia32e && ar(13) ==> !ar(14))
    && (used ==> GranularityWritten(v(Limit(seg)), Granular(ar)))
  }

  // --------------------------------------------------------------- guest state

  predicate Ia32eGuest(v: Vmcs) { v(EntryControls)(9) }

  predicate Unrestricted(v: Vmcs) { v(ProcControls)(31) && v(ProcControls2)(7) }

  predicate LoadsEfer(v: Vmcs) { v(EntryControls)(15) }

  predicate ControlRegistersChecked(v: Vmcs)
  {
    && (v(Cr0)(31) && !Unrestricted(v) ==> v(Cr0)(0))
    && !v(EntryControls)(13)
    && (Ia32eGuest(v) ==> v(Cr0)(31) && v(Cr4)(5))
  }

  predicate EferChecked(v: Vmcs)
  {
    var efer := v(Efer);
    LoadsEfer(v) ==>
      && Clear(efer, 1, 8) && !efer(9) && Clear(efer, 12, 64)
      && efer(10) == Ia32eGuest(v)
      && (v(Cr0)(31) ==> efer(10) == efer(8))
  }

  predicate TrChecked(v: Vmcs)
  {
    var ar := v(TrAccessRights);
    && Ia32eGuest(v) && TypeOf(ar) == 11
    && !ar(4) && ar(7) && Clear(ar, 8, 12) && Clear(ar, 17, 32) && !Unusable(ar)
    && GranularityWritten(v(TrLimit), Granular(ar))
  }

  predicate RflagsChecked(v: Vmcs)
  {
    var r := v(Rflags);
    !r(3) && !r(5) && !r(15) && Clear(r, 22, 64) && r(1)
  }

  /** Activity state 0 is active, 1 is HLT, 2 is shutdown, 3 is wait-for-SIPI. */
  predicate IsActive(v: Vmcs) { Clear(v(Activity), 0, 64) }

  predicate IsHalted(v: Vmcs) { v(Activity)(0) && Clear(v(Activity), 1, 64) }

  predicate Blocking(v: Vmcs) { v(Interruptibility)(0) || v(Interruptibility)(1) }

  predicate NonRegisterChecked(v: Vmcs)
  {
    && Clear(v(Activity), 2, 64)
    && (Dpl(v(AccessRights(Ss))) != 0 ==> !IsHalted(v))
    && (Blocking(v) ==> !IsActive(v))
    && (!v(Rflags)(9) ==> !v(Interruptibility)(0))
    && (v(Interruptibility)(4) ==> !v(Interruptibility)(1))
  }

  /** `cpu_vmxcheck_guest`. */
  predicate GuestChecked(v: Vmcs)
  {
    && ControlRegistersChecked(v)
    && EferChecked(v)
    && !v(EntryControls)(16) && !v(EntryControls)(18) && !v(EntryControls)(20)
    && !v(TrSelector)(2)
    && (!Unusable(v(LdtrAccessRights)) ==> !v(LdtrSelector)(2))
    && (forall seg :: SegmentChecked(v, seg, Ia32eGuest(v), Unrestricted(v)))
    && TrChecked(v)
    && RflagsChecked(v)
    && NonRegisterChecked(v)
  }

  // ------------------------------------------- rules the checks get from the manual

  /** Section 26.3.1.1: paging needs protection unless the guest is unrestricted; IA-32e mode needs paging
      and physical address extension. */
  ghost predicate PagingRule(v: Vmcs)
  {
    && (v(Cr0)(31) ==> v(Cr0)(0) || (v(ProcControls)(31) && v(ProcControls2)(7)))
    && (v(EntryControls)(9) ==> v(Cr0)(31) && v(Cr4)(5))
  }

  /** Section 26.3.1.1: if EFER is loaded its reserved bits are clear, LMA is the entry control, and with
      paging on LMA is LME. */
  ghost predicate EferRule(v: Vmcs)
  {
    v(EntryControls)(15) ==>
      && (forall i :: (1 <= i < 8 || i == 9 || 12 <= i < 64) ==> !v(Efer)(i))
      && v(Efer)(10) == v(EntryControls)(9)
      && (v(Cr0)(31) ==> v(Efer)(10) == v(Efer)(8))
  }

  /** Section 26.3.1.2: TR and a usable LDTR have selectors of the GDT. */
  ghost predicate SelectorRule(v: Vmcs) { !v(TrSelector)(2) && (v(LdtrAccessRights)(16) || !v(LdtrSelector)(2)) }

  predicate IsData(seg: SegmentName) { seg != Cs && seg != Ss }

  /** CS is always in use, the others unless marked unusable. */
  predicate Used(v: Vmcs, seg: SegmentName) { seg == Cs || !v(AccessRights(seg))(16) }

  /** Section 26.3.1.2 on types: CS holds accessed code, or data of type 3 if the guest is unrestricted; SS
      accessed writable data; the others anything accessed that can be read. */
  ghost predicate TypeRule(v: Vmcs)
  {
    && (TypeOf(v(AccessRights(Cs))) in {9, 11, 13, 15} || (Unrestricted(v) && TypeOf(v(AccessRights(Cs))) == 3))
    && (Used(v, Ss) ==> TypeOf(v(AccessRights(Ss))) in {3, 7})
    && (forall seg :: IsData(seg) && Used(v, seg) ==> TypeOf(v(AccessRights(seg))) in {1, 3, 5, 7, 11, 15})
  }

  /** Section 26.3.1.2 on the other bits: code or data, present, nothing reserved. */
  ghost predicate DescriptorRule(v: Vmcs)
  {
    forall seg :: Used(v, seg) ==>
      && v(AccessRights(seg))(4) && v(AccessRights(seg))(7)
      && forall i :: (8 <= i < 12 || 17 <= i < 32) ==> !v(AccessRights(seg))(i)
  }

  /** Section 26.3.1.2: 64-bit code has no default operand size of 32 bits. */
  ghost predicate OperandSizeRule(v: Vmcs) { v(EntryControls)(9) && v(AccessRights(Cs))(13) ==> !v(AccessRights(Cs))(14) }

  /** Section 26.3.1.2 on TR but for its type and granularity: a usable, present system descriptor. */
  ghost predicate TaskRule(v: Vmcs)
  {
    && !v(TrAccessRights)(4) && v(TrAccessRights)(7) && !v(TrAccessRights)(16)
    && forall i :: (8 <= i < 12 || 17 <= i < 32) ==> !v(TrAccessRights)(i)
  }

  /** Section 26.3.1.4: reserved flags are clear, bit 1 is set. */
  ghost predicate FlagsRule(v: Vmcs)
  {
    v(Rflags)(1) && forall i :: (i == 3 || i == 5 || i == 15 || 22 <= i < 64) ==> !v(Rflags)(i)
  }

  /** Section 26.3.1.5: the activity state is one of four and not HLT outside privilege 0; blocking by STI needs
      interrupts enabled, an enclave interruption excludes blocking by MOV SS. */
  ghost predicate StateRule(v: Vmcs)
  {
    && (forall i :: 2 <= i < 64 ==> !v(Activity)(i))
    && (v(AccessRights(Ss))(5) || v(AccessRights(Ss))(6) ==> !v(Activity)(0) || v(Activity)(1))
    && (v(Interruptibility)(0) ==> v(Rflags)(9))
    && (v(Interruptibility)(4) ==> !v(Interruptibility)(1))
  }

  /** Everything the checks demand as the manual does. */
  ghost predicate AgreedRules(v: Vmcs)
  {
    && PagingRule(v) && EferRule(v) && SelectorRule(v) && TypeRule(v) && DescriptorRule(v)
    && OperandSizeRule(v) && TaskRule(v) && FlagsRule(v) && StateRule(v)
  }

  // --------------------------------------------------------------- acceptance

  /** The four checks that deviate from the manual, as written. */
  ghost predicate WrittenDeviations(v: Vmcs)
  {
    && (!Unrestricted(v) ==> Dpl(v(AccessRights(Ss))) == Rpl(v(Selector(Ss))))
    && (TypeOf(v(AccessRights(Cs))) == 3 || v(Cr0)(0) ==> Dpl(v(AccessRights(Ss))) == 0)
    && (forall seg :: IsData(seg) && !Unrestricted(v) && Used(v, seg) ==> Dpl(v(AccessRights(seg))) >= Rpl(v(Selector(seg))))
    && (forall seg :: Used(v, seg) ==> GranularityWritten(v(Limit(seg)), v(AccessRights(seg))(15)))
    && GranularityWritten(v(TrLimit), v(TrAccessRights)(15))
    && (v(Interruptibility)(0) || v(Interruptibility)(1) ==> exists i :: 0 <= i < 64 && v(Activity)(i))
  }

  /** What the checks support: long mode with a busy 64-bit TSS, non-conforming code at the stack's
      privilege, and no loading of further registers on entry. */
  ghost predicate Supported(v: Vmcs)
  {
    && v(EntryControls)(9) && TypeOf(v(TrAccessRights)) == 11
    && TypeOf(v(AccessRights(Cs))) in {9, 11} && Dpl(v(AccessRights(Cs))) == Dpl(v(AccessRights(Ss)))
    && !v(EntryControls)(13) && !v(EntryControls)(16) && !v(EntryControls)(18) && !v(EntryControls)(20)
  }

  lemma ControlsExactly(v: Vmcs)
    ensures ControlRegistersChecked(v) && EferChecked(v) <==> PagingRule(v) && EferRule(v) && !v(EntryControls)(13)
  {
  }

  lemma TaskExactly(v: Vmcs)
    ensures TrChecked(v) <==> TaskRule(v) && v(EntryControls)(9) && TypeOf(v(TrAccessRights)) == 11
                              && GranularityWritten(v(TrLimit), v(TrAccessRights)(15))
  {
    hide GranularityWritten;
  }

  lemma StateExactly(v: Vmcs)
    ensures RflagsChecked(v) && NonRegisterChecked(v) <==> FlagsRule(v) && StateRule(v) && (Blocking(v) ==> !IsActive(v))
  {
  }

  /** The rules for one segment. */
  lemma SegmentExactly(v: Vmcs, seg: SegmentName)
    ensures var ar := v(AccessRights(seg));
            var used := Used(v, seg);
            SegmentChecked(v, seg, Ia32eGuest(v), Unrestricted(v)) <==>
            && TypeChecked(seg, ar, Unrestricted(v)) && DplChecked(v, seg, ar, Unrestricted(v))
            && (used ==> ar(4) && ar(7) && forall i :: (8 <= i < 12 || 17 <= i < 32) ==> !ar(i))
            && (seg == Cs && v(EntryControls)(9) && ar(13) ==> !ar(14))
            && (used ==> GranularityWritten(v(Limit(seg)), ar(15)))
  {
    hide TypeChecked, DplChecked, GranularityWritten;
  }

  lemma TypesExactly(v: Vmcs)
    ensures (forall seg :: TypeChecked(seg, v(AccessRights(seg)), Unrestricted(v))) <==> TypeRule(v)
  {
    hide Unrestricted;
    forall seg | IsData(seg)
      ensures TypeChecked(seg, v(AccessRights(seg)), Unrestricted(v))
         <==> (Used(v, seg) ==> TypeOf(v(AccessRights(seg))) in {1, 3, 5, 7, 11, 15})
    {
    }
    assert TypeChecked(Cs, v(AccessRights(Cs)), Unrestricted(v))
      <==> TypeOf(v(AccessRights(Cs))) in {9, 11, 13, 15} || (Unrestricted(v) && TypeOf(v(AccessRights(Cs))) == 3);
    assert TypeChecked(Ss, v(AccessRights(Ss)), Unrestricted(v)) <==> (Used(v, Ss) ==> TypeOf(v(AccessRights(Ss))) in {3, 7});
  }

  /** The privilege rules as written. */
  ghost predicate DplWritten(v: Vmcs)
  {
    && TypeOf(v(AccessRights(Cs))) in {9, 11} && Dpl(v(AccessRights(Cs))) == Dpl(v(AccessRights(Ss)))
    && (!Unrestricted(v) ==> Dpl(v(AccessRights(Ss))) == Rpl(v(Selector(Ss))))
    && (TypeOf(v(AccessRights(Cs))) == 3 || v(Cr0)(0) ==> Dpl(v(AccessRights(Ss))) == 0)
    && (forall seg :: IsData(seg) && !Unrestricted(v) && Used(v, seg) ==> Dpl(v(AccessRights(seg))) >= Rpl(v(Selector(seg))))
  }

  lemma DplsExactly(v: Vmcs)
    requires TypeRule(v)
    ensures (forall seg :: DplChecked(v, seg, v(AccessRights(seg)), Unrestricted(v))) <==> DplWritten(v)
  {
    hide TypeOf, Dpl, Rpl, Unrestricted;
    forall seg | IsData(seg)
      ensures DplChecked(v, seg, v(AccessRights(seg)), Unrestricted(v))
         <==> (!Unrestricted(v) && Used(v, seg) ==> Dpl(v(AccessRights(seg))) >= Rpl(v(Selector(seg))))
    {
    }
    assert DplChecked(v, Cs, v(AccessRights(Cs)), Unrestricted(v))
      <==> TypeOf(v(AccessRights(Cs))) in {9, 11} && Dpl(v(AccessRights(Cs))) == Dpl(v(AccessRights(Ss)));
    assert DplChecked(v, Ss, v(AccessRights(Ss)), Unrestricted(v))
      <==> (!Unrestricted(v) ==> Dpl(v(AccessRights(Ss))) == Rpl(v(Selector(Ss))))
           && (TypeOf(v(AccessRights(Cs))) == 3 || v(Cr0)(0) ==> Dpl(v(AccessRights(Ss))) == 0);
  }

  lemma SegmentsExactly(v: Vmcs)
    ensures (forall seg :: SegmentChecked(v, seg, Ia32eGuest(v), Unrestricted(v)))
       <==> TypeRule(v) && DescriptorRule(v) && OperandSizeRule(v) && DplWritten(v)
            && forall seg :: Used(v, seg) ==> GranularityWritten(v(Limit(seg)), v(AccessRights(seg))(15))
  {
    hide TypeChecked, DplChecked, GranularityWritten, SegmentChecked, TypeRule, DplWritten, Unrestricted, Used;
    forall seg
      ensures var ar := v(AccessRights(seg));
              SegmentChecked(v, seg, Ia32eGuest(v), Unrestricted(v)) <==>
              && TypeChecked(seg, ar, Unrestricted(v)) && DplChecked(v, seg, ar, Unrestricted(v))
              && (Used(v, seg) ==> ar(4) && ar(7) && forall i :: (8 <= i < 12 || 17 <= i < 32) ==> !ar(i))
              && (seg == Cs && v(EntryControls)(9) && ar(13) ==> !ar(14))
              && (Used(v, seg) ==> GranularityWritten(v(Limit(seg)), ar(15)))
    {
      SegmentExactly(v, seg);
    }
    TypesExactly(v);
    if TypeRule(v) { DplsExactly(v); }
  }

  /** Acceptance, rule by rule instead of segment by segment. */
  lemma AcceptanceExactly(v: Vmcs)
    ensures GuestChecked(v) <==> AgreedRules(v) && WrittenDeviations(v) && Supported(v)
  {
    hide SegmentChecked, ControlRegistersChecked, EferChecked, TrChecked, RflagsChecked, NonRegisterChecked;
    hide PagingRule, EferRule, TypeRule, DescriptorRule, OperandSizeRule, TaskRule, FlagsRule, StateRule;
    hide GranularityWritten, TypeOf, Dpl, Rpl, Used;
    ControlsExactly(v);
    TaskExactly(v);
    StateExactly(v);
    SegmentsExactly(v);
  }

  // ------------------------------------------------------------- against the manual

  /** What acceptance forces. */
  lemma AcceptedGuest(v: Vmcs)
    requires GuestChecked(v)
    ensures Ia32eGuest(v) && v(Cr0)(31) && v(Cr4)(5)
    ensures TypeOf(v(TrAccessRights)) == 11 && !v(TrSelector)(2) && v(Rflags)(1)
    ensures LoadsEfer(v) ==> v(Efer)(10) && v(Efer)(8)
    ensures PlainCode(TypeOf(v(AccessRights(Cs)))) && Dpl(v(AccessRights(Cs))) == Dpl(v(AccessRights(Ss)))
    ensures v(Cr0)(0) ==> Dpl(v(AccessRights(Cs))) == 0 && Dpl(v(AccessRights(Ss))) == 0
    ensures !Unrestricted(v) ==> v(Cr0)(0) && Rpl(v(Selector(Ss))) == 0
  {
    assert SegmentChecked(v, Cs, Ia32eGuest(v), Unrestricted(v));
    assert SegmentChecked(v, Ss, Ia32eGuest(v), Unrestricted(v));
  }

  /** Section 26.3.1.2 on the DPL of SS: the RPL of its selector unless the guest is unrestricted, and 0
      if CS has type 3 or protection is off. */
  predicate StackDplSdm(v: Vmcs)
  {
    var dpl := Dpl(v(AccessRights(Ss)));
    && (!Unrestricted(v) ==> dpl == Rpl(v(Selector(Ss))))
    && (TypeOf(v(AccessRights(Cs))) == 3 || !v(Cr0)(0) ==> dpl == 0)
  }

  /** The written test reads the protection bit the wrong way round.  It says what the manual says exactly
      when the DPL is 0, CS has type 3, or the test on the RPL has rejected the guest already. */
  lemma StackDplExactly(v: Vmcs)
    ensures var ss := v(AccessRights(Ss));
            (DplChecked(v, Ss, ss, Unrestricted(v)) <==> StackDplSdm(v))
            <==> Dpl(ss) == 0 || TypeOf(v(AccessRights(Cs))) == 3 || (!Unrestricted(v) && Dpl(ss) != Rpl(v(Selector(Ss))))
  {
  }

  /** An accepted guest meets the manual's rule exactly when protection is on or the DPL is 0 anyway. */
  lemma AcceptedStackDpl(v: Vmcs)
    requires GuestChecked(v)
    ensures StackDplSdm(v) <==> v(Cr0)(0) || Dpl(v(AccessRights(Ss))) == 0
  {
    AcceptedGuest(v);
    assert SegmentChecked(v, Ss, Ia32eGuest(v), Unrestricted(v));
  }

  /** Section 26.3.1.2 on the DPL of a data segment: at least the RPL, but for conforming code. */
  predicate DataDplSdm(v: Vmcs, seg: SegmentName)
  {
    var ar := v(AccessRights(seg));
    !Unrestricted(v) && !Unusable(ar) && TypeOf(ar) <= 11 ==> Dpl(ar) >= Rpl(v(Selector(seg)))
  }

  /** The written type filter never filters: the check is stricter than the manual, and rejects beyond it
      exactly the usable conforming readable code segments with a DPL below the RPL. */
  lemma DataDplExactly(v: Vmcs, seg: SegmentName)
    requires IsData(seg) && TypeChecked(seg, v(AccessRights(seg)), Unrestricted(v))
    ensures var ar := v(AccessRights(seg));
            && (DplChecked(v, seg, ar, Unrestricted(v)) <==> Unrestricted(v) || Unusable(ar) || Dpl(ar) >= Rpl(v(Selector(seg))))
            && (DplChecked(v, seg, ar, Unrestricted(v)) ==> DataDplSdm(v, seg))
            && (DataDplSdm(v, seg) && !DplChecked(v, seg, ar, Unrestricted(v))
                <==> !Unrestricted(v) && !Unusable(ar) && TypeOf(ar) == 15 && Dpl(ar) < Rpl(v(Selector(seg))))
  {
  }

  /** The low bits of a limit that is neither all zeros nor all ones there. */
  predicate MixedLow(limit: Word)
  {
    (exists i :: 0 <= i < 12 && limit(i)) && (exists i :: 0 <= i < 12 && !limit(i))
  }

  /** The written granularity check accepts everything the manual does, and beyond that exactly the
      granular segments whose low limit bits are mixed. */
  lemma GranularityExactly(limit: Word, g: bool)
    ensures GranularitySdm(limit, g) ==> GranularityWritten(limit, g)
    ensures GranularityWritten(limit, g) && !GranularitySdm(limit, g) <==> g && MixedLow(limit)
  {
    if Clear(limit, 0, 12) { assert !limit(0); }
  }

  /** The granularity rule for every segment in use and for TR. */
  predicate AllGranularitySdm(v: Vmcs)
  {
    && (forall seg :: Used(v, seg) ==> GranularitySdm(v(Limit(seg)), Granular(v(AccessRights(seg)))))
    && GranularitySdm(v(TrLimit), Granular(v(TrAccessRights)))
  }

  /** No segment in use, nor TR, is granular with mixed low limit bits. */
  predicate NoMixedGranular(v: Vmcs)
  {
    && (forall seg :: Used(v, seg) ==> !(Granular(v(AccessRights(seg))) && MixedLow(v(Limit(seg)))))
    && !(Granular(v(TrAccessRights)) && MixedLow(v(TrLimit)))
  }

  lemma AcceptedGranularity(v: Vmcs)
    requires GuestChecked(v)
    ensures AllGranularitySdm(v) <==> NoMixedGranular(v)
  {
    hide GranularitySdm, GranularityWritten, MixedLow, TypeChecked, DplChecked, Clear;
    hide ControlRegistersChecked, EferChecked, RflagsChecked, NonRegisterChecked;
    forall seg | Used(v, seg)
      ensures var limit, g := v(Limit(seg)), Granular(v(AccessRights(seg)));
              GranularitySdm(limit, g) <==> !(g && MixedLow(limit))
    {
      assert SegmentChecked(v, seg, Ia32eGuest(v), Unrestricted(v));
      GranularityExactly(v(Limit(seg)), Granular(v(AccessRights(seg))));
    }
    GranularityExactly(v(TrLimit), Granular(v(TrAccessRights)));
  }

  /** Section 26.3.1.5: a guest with blocking by STI or MOV SS must be active. */
  predicate ActivitySdm(v: Vmcs) { Blocking(v) ==> IsActive(v) }

  /** The written check is the reverse: an accepted guest satisfies the manual's rule exactly when
      it has no such blocking. */
  lemma ActivityExactly(v: Vmcs)
    requires GuestChecked(v)
    ensures ActivitySdm(v) <==> !Blocking(v)
  {
  }

  /** The four rules of the manual that the checks get wrong. */
  predicate FourRulesSdm(v: Vmcs)
  {
    StackDplSdm(v) && (forall seg :: IsData(seg) ==> DataDplSdm(v, seg)) && AllGranularitySdm(v) && ActivitySdm(v)
  }

  /** Section 26.3.1.2 on the DPL of CS. */
  predicate CodeDplSdm(v: Vmcs)
  {
    var typ, dpl := TypeOf(v(AccessRights(Cs))), Dpl(v(AccessRights(Cs)));
    && (typ == 3 ==> dpl == 0)
    && (typ == 9 || typ == 11 ==> dpl == Dpl(v(AccessRights(Ss))))
    && (typ == 13 || typ == 15 ==> dpl <= Dpl(v(AccessRights(Ss))))
  }

  /** Section 26.3.1.2 on the type of TR: a busy 64-bit TSS in IA-32e mode, any busy TSS otherwise. */
  predicate TaskTypeSdm(v: Vmcs)
  {
    TypeOf(v(TrAccessRights)) == 11 || (!v(EntryControls)(9) && TypeOf(v(TrAccessRights)) == 3)
  }

  /** All rules of sections 26.3.1.1 to 26.3.1.5 on which the checks touch, as the manual states them. */
  ghost predicate SdmGuest(v: Vmcs) { AgreedRules(v) && CodeDplSdm(v) && TaskTypeSdm(v) && FourRulesSdm(v) }

  /** Soundness of the checker with its exact condition: an accepted guest obeys the manual if and only if
      protection is on or SS has DPL 0, no segment in use is granular with mixed low limit bits, and nothing
      blocks. */
  lemma AcceptedObeysExactly(v: Vmcs)
    requires GuestChecked(v)
    ensures SdmGuest(v) <==> (v(Cr0)(0) || Dpl(v(AccessRights(Ss))) == 0) && NoMixedGranular(v) && !Blocking(v)
  {
    hide GranularitySdm, GranularityWritten, MixedLow, TypeChecked, DplChecked, Clear, StackDplSdm, DataDplSdm;
    hide ControlRegistersChecked, EferChecked, RflagsChecked, NonRegisterChecked, ActivitySdm, AllGranularitySdm, NoMixedGranular;
    hide AgreedRules, WrittenDeviations, TypeOf, Dpl;
    AcceptanceExactly(v);
    AcceptedStackDpl(v);
    AcceptedGranularity(v);
    ActivityExactly(v);
    forall seg | IsData(seg)
      ensures DataDplSdm(v, seg)
    {
      assert SegmentChecked(v, seg, Ia32eGuest(v), Unrestricted(v));
      DataDplExactly(v, seg);
    }
  }

  /** Conforming code in a data segment of a restricted guest, with a DPL below the RPL. */
  predicate LowConforming(v: Vmcs, seg: SegmentName)
  {
    var ar := v(AccessRights(seg));
    IsData(seg) && !Unrestricted(v) && !Unusable(ar) && TypeOf(ar) == 15 && Dpl(ar) < Rpl(v(Selector(seg)))
  }

  /** Completeness with its exact condition: a guest that obeys the manual is rejected if and only if it is
      not in IA-32e mode, runs conforming or type-3 code, loads one of four further registers on entry, has
      protection on at a privilege other than 0, has low conforming code in a data segment, or blocks. */
  lemma ObeyingRejectedExactly(v: Vmcs)
    requires SdmGuest(v)
    ensures !GuestChecked(v) <==>
            || !v(EntryControls)(9) || !PlainCode(TypeOf(v(AccessRights(Cs))))
            || v(EntryControls)(13) || v(EntryControls)(16) || v(EntryControls)(18) || v(EntryControls)(20)
            || (v(Cr0)(0) && Dpl(v(AccessRights(Ss))) != 0)
            || (exists seg :: LowConforming(v, seg))
            || Blocking(v)
  {
    hide AgreedRules, Dpl, Rpl, Unrestricted, GranularityWritten, GranularitySdm, GuestChecked;
    AcceptanceExactly(v);
    AgreedTypes(v);
    forall seg | Used(v, seg)
      ensures GranularityWritten(v(Limit(seg)), v(AccessRights(seg))(15))
    {
      GranularityExactly(v(Limit(seg)), v(AccessRights(seg))(15));
    }
    GranularityExactly(v(TrLimit), v(TrAccessRights)(15));
    forall seg | IsData(seg) && !Unrestricted(v) && Used(v, seg)
      ensures Dpl(v(AccessRights(seg))) >= Rpl(v(Selector(seg))) <==> !LowConforming(v, seg)
    {
    }
    BlockingActive(v);
  }

  lemma AgreedTypes(v: Vmcs)
    requires AgreedRules(v)
    ensures TypeOf(v(AccessRights(Cs))) in {3, 9, 11, 13, 15}
    ensures forall seg :: IsData(seg) && Used(v, seg) ==> TypeOf(v(AccessRights(seg))) in {1, 3, 5, 7, 11, 15}
  {
    hide TypeOf, PagingRule, EferRule, DescriptorRule, FlagsRule, StateRule, TaskRule;
  }

  lemma BlockingActive(v: Vmcs)
    ensures IsActive(v) <==> !exists i :: 0 <= i < 64 && v(Activity)(i)
  {
  }

  // ------------------------------------------------------------------- witnesses

  /** An unrestricted long-mode guest, protection off, shut down and with blocking by MOV SS, whose code and
      stack segments have DPL 3; the code segment is granular with limit 1. */
  predicate LaxBit(f: VmcsField, i: nat)
  {
    match f
    case EntryControls => i == 9
    case ProcControls => i == 31
    case ProcControls2 => i == 7
    case Cr0 => i == 31
    case Cr4 => i == 5
    case Rflags => i == 1
    case Activity => i == 1
    case Interruptibility => i == 1
    case AccessRights(seg) =>
      if seg == Cs then (i <= 7 && i != 2) || i == 15 else if seg == Ss then i <= 7 && i != 2 && i != 3 else i == 16
    case Limit(seg) => seg == Cs && i == 0
    case TrAccessRights => i == 0 || i == 1 || i == 3 || i == 7
    case LdtrAccessRights => i == 16
    case _ => false
  }

  /** The VMCS holds these bits. */
  ghost predicate Holds(v: Vmcs, bit: (VmcsField, nat) -> bool)
  {
    forall f: VmcsField, i: nat :: v(f)(i) == bit(f, i)
  }

  function LaxGuest(): (v: Vmcs)
    ensures Holds(v, LaxBit)
  {
    (f: VmcsField) => (i: nat) => LaxBit(f, i)
  }

  lemma LaxSegment(v: Vmcs, seg: SegmentName)
    requires Holds(v, LaxBit)
    ensures SegmentChecked(v, seg, true, true)
  {
    assert seg == Cs ==> v(Limit(seg))(0);
  }

  lemma LaxRegisters(v: Vmcs)
    requires Holds(v, LaxBit)
    ensures Ia32eGuest(v) && Unrestricted(v) && ControlRegistersChecked(v) && EferChecked(v)
    ensures TrChecked(v) && RflagsChecked(v)
  {
  }

  lemma LaxState(v: Vmcs)
    requires Holds(v, LaxBit)
    ensures NonRegisterChecked(v) && !ActivitySdm(v) && !StackDplSdm(v)
  {
    assert v(Activity)(1);
  }

  lemma LaxGranularity(v: Vmcs)
    requires Holds(v, LaxBit)
    ensures !AllGranularitySdm(v)
  {
    hide GranularitySdm;
    assert Used(v, Cs) && v(Limit(Cs))(0) && !v(Limit(Cs))(1);
    GranularityExactly(v(Limit(Cs)), true);
  }

  /** It is accepted and breaks three of the four rules. */
  lemma LaxGuestAccepted()
    ensures GuestChecked(LaxGuest())
    ensures !StackDplSdm(LaxGuest()) && !AllGranularitySdm(LaxGuest()) && !ActivitySdm(LaxGuest())
  {
    hide SegmentChecked, AllGranularitySdm, LaxGuest, ControlRegistersChecked, EferChecked, TrChecked;
    hide RflagsChecked, NonRegisterChecked, ActivitySdm, StackDplSdm, Unrestricted;
    var v := LaxGuest();
    LaxRegisters(v);
    LaxState(v);
    LaxGranularity(v);
    forall seg
      ensures SegmentChecked(v, seg, true, true)
    {
      LaxSegment(v, seg);
    }
  }

  /** A restricted guest in kernel mode with DS conforming code of DPL 0 and an RPL of 3. */
  predicate ConformingBit(f: VmcsField, i: nat)
  {
    match f
    case EntryControls => i == 9
    case Cr0 => i == 0 || i == 31
    case Cr4 => i == 5
    case Rflags => i == 1
    case AccessRights(seg) =>
      if seg == Cs then i == 0 || i == 1 || i == 3 || i == 4 || i == 7
      else if seg == Ss then i == 0 || i == 1 || i == 4 || i == 7
      else if seg == Ds then i <= 4 || i == 7
      else i == 16
    case Selector(seg) => seg == Ds && i <= 1
    case TrAccessRights => i == 0 || i == 1 || i == 3 || i == 7
    case LdtrAccessRights => i == 16
    case _ => false
  }

  function ConformingGuest(): (v: Vmcs)
    ensures Holds(v, ConformingBit)
  {
    (f: VmcsField) => (i: nat) => ConformingBit(f, i)
  }

  lemma ConformingSegment(v: Vmcs, seg: SegmentName)
    requires Holds(v, ConformingBit)
    ensures SegmentChecked(v, seg, true, false) <==> seg != Ds
    ensures TypeChecked(seg, v(AccessRights(seg)), false)
  {
  }

  lemma ConformingSegmentObeys(v: Vmcs, seg: SegmentName)
    requires Holds(v, ConformingBit)
    ensures IsData(seg) ==> DataDplSdm(v, seg)
    ensures GranularitySdm(v(Limit(seg)), Granular(v(AccessRights(seg))))
  {
  }

  lemma ConformingState(v: Vmcs)
    requires Holds(v, ConformingBit)
    ensures Ia32eGuest(v) && !Unrestricted(v) && StackDplSdm(v) && ActivitySdm(v)
    ensures GranularitySdm(v(TrLimit), Granular(v(TrAccessRights)))
  {
  }

  lemma ConformingControls(v: Vmcs)
    requires Holds(v, ConformingBit)
    ensures PagingRule(v) && EferRule(v) && SelectorRule(v) && OperandSizeRule(v) && TaskRule(v) && FlagsRule(v) && StateRule(v)
  {
  }

  lemma ConformingTypes(v: Vmcs)
    requires Holds(v, ConformingBit)
    ensures TypeRule(v) && CodeDplSdm(v) && TaskTypeSdm(v)
  {
    hide TypeChecked;
    forall seg
      ensures TypeChecked(seg, v(AccessRights(seg)), Unrestricted(v))
    {
      ConformingSegment(v, seg);
    }
    TypesExactly(v);
  }

  lemma ConformingDescriptors(v: Vmcs)
    requires Holds(v, ConformingBit)
    ensures DescriptorRule(v)
  {
  }

  /** It obeys the manual and is rejected, for the privilege of DS alone. */
  lemma ConformingGuestRejected()
    ensures SdmGuest(ConformingGuest()) && !GuestChecked(ConformingGuest())
    ensures TypeChecked(Ds, ConformingGuest()(AccessRights(Ds)), false)
    ensures forall seg :: SegmentChecked(ConformingGuest(), seg, true, false) <==> seg != Ds
  {
    hide SegmentChecked, TypeChecked, DataDplSdm, ConformingGuest, GranularitySdm, StackDplSdm, ActivitySdm;
    hide ControlRegistersChecked, EferChecked, TrChecked, RflagsChecked, NonRegisterChecked, Unrestricted, Granular;
    hide PagingRule, EferRule, SelectorRule, OperandSizeRule, TaskRule, FlagsRule, StateRule, TypeRule, DescriptorRule;
    hide CodeDplSdm, TaskTypeSdm;
    var v := ConformingGuest();
    forall seg
      ensures SegmentChecked(v, seg, true, false) <==> seg != Ds
      ensures IsData(seg) ==> DataDplSdm(v, seg)
      ensures GranularitySdm(v(Limit(seg)), Granular(v(AccessRights(seg))))
    {
      ConformingSegment(v, seg);
      ConformingSegmentObeys(v, seg);
    }
    ConformingSegment(v, Ds);
    ConformingState(v);
    ConformingControls(v);
    ConformingTypes(v);
    ConformingDescriptors(v);
  }
}

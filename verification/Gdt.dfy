/** The TSS descriptor, written by loader/efi/gdt.cc and read by freestanding/x86utils.cc.  The
    descriptor layout is that of Intel SDM Vol. 3A sections 3.4.5 and 7.2.3. */
module Gdt {
  import opened Bits
  import opened BitOps
  import opened Bytes

  const TSS_SIZE: nat := 104
  const TYPE_TSS_AVAILABLE: nat := 9
  const TYPE_TSS_BUSY: nat := 11

  // ------------------------------------------------------------------- reader

  /** A byte shifted left by 24 as an int and converted to 64 bits: sign-extended. */
  function PromotedShift24(h: u8): u64
  {
    if h < 0x80 then h * 0x100_0000 else h * 0x100_0000 + (U64_SIZE - U32_SIZE)
  }

  /** `get_descriptor_base` for the descriptor at an offset of the table. */
  function DescriptorBase(gdt: bytes, off: nat): (base: nat)
    requires Within(gdt, off, |gdt|)
  {
    var hi := PromotedShift24(gdt[off + 7]);
    var mid := gdt[off + 4] as int * 0x1_0000;
    var low := gdt[off + 2] as int + gdt[off + 3] as int * 0x100;
    var base := And(Or(Or(hi, mid), low), 0xFFFF_FFFF);
    if IsLong(gdt, off) then Or(base, LeValue(gdt[off + 8..off + 12]) * U32_SIZE) else base
  }

  /** A system descriptor of a 64-bit TSS, available or busy. */
  predicate IsLong(gdt: bytes, off: nat)
    requires off + 8 <= |gdt|
  {
    var typ := gdt[off + 5] % 16;
    gdt[off + 5] / 16 % 2 == 0 && (typ == TYPE_TSS_AVAILABLE || typ == TYPE_TSS_BUSY)
  }

  /** The descriptor at `off` ends at or before `end`. */
  predicate Within(gdt: bytes, off: nat, end: nat)
  {
    off + 8 <= |gdt| && off + 8 <= end && (IsLong(gdt, off) ==> off + 16 <= end)
  }

  function SelectorIndex(selector: u16): (index: nat)
    ensures index < 8192
  {
    selector / 8
  }

  /** `get_segment_base`. */
  function SegmentBase(gdt: bytes, selector: u16): nat
    requires Within(gdt, 8 * SelectorIndex(selector), |gdt|)
  {
    var table := selector / 4 % 2;
    if table == 0 && SelectorIndex(selector) == 0 then 0
    else if table != 0 then 0
    else DescriptorBase(gdt, 8 * SelectorIndex(selector))
  }

  /** The low 32 bits of the base are the four base bytes: the mask removes the sign extension. */
  lemma BaseBytes(h: u8, mid: u8, low: u16)
    ensures And(Or(Or(PromotedShift24(h), mid * 0x1_0000), low), 0xFFFF_FFFF) == h * 0x100_0000 + mid * 0x1_0000 + low
  {
    hide Or, And, Shl, Pow2;
    Pow2Values();
    Pow2TwentyFour();
    var h' := if h < 0x80 then h else h + (0x100_0000_0000 - 0x100);
    ShlIsProduct(h', 24);
    OrDisjoint(h', mid * 0x1_0000, 24);
    ShlIsProduct(h' * 0x100 + mid, 16);
    OrDisjoint(h' * 0x100 + mid, low, 16);
    var w := (h' * 0x100 + mid) * 0x1_0000 + low;
    AndLowMask(w, 32);
    var b := h * 0x100_0000 + mid * 0x1_0000 + low;
    DivModUnique(w, U32_SIZE, if h < 0x80 then 0 else U32_SIZE - 1, b);
  }

  lemma Pow2TwentyFour()
    ensures Pow2(24) == 0x100_0000
  {
    hide Pow2;
    Pow2Values();
    Pow2Add(12, 12);
  }

  /** The upper half of a long base is above the lower half. */
  lemma LongBase(base: u32, upper: u32)
    ensures Or(base, upper * U32_SIZE) == base + upper * U32_SIZE
  {
    hide Or, Shl, Pow2;
    Pow2Values();
    ShlIsProduct(upper, 32);
    OrDisjoint(upper, base, 32);
    OrCommutes(base, upper * U32_SIZE);
  }

  // ------------------------------------------------------------------- writer

  /** The 16 bytes written for a TSS at `tss`: its size, then the bytes of its address scattered
      around the access byte. */
  function TssBytes(tss: u64): (b: bytes)
    ensures |b| == 16
  {
    var a := LeBytes(tss, 8);
    [(TSS_SIZE - 1) % 0x100, (TSS_SIZE - 1) / 0x100, a[0], a[1], a[2], 0x89, 0, a[3], a[4], a[5], a[6], a[7], 0, 0, 0, 0]
  }

  /** Index of the new descriptor: the 13-bit selector field truncates it. */
  function TrIndex(limit: u16): nat { (limit + 1) / 8 % 8192 }

  /** The new table, byte by byte: the descriptor, the old table but for its last byte, and whatever
      the allocation held. */
  function NewGdt(limit: u16, oldGdt: bytes, garbage: bytes, tss: u64): (r: bytes)
    requires limit <= |oldGdt| && |garbage| == 16 * (limit + 1)
    ensures |r| == |garbage|
  {
    var off := 8 * TrIndex(limit);
    seq<u8>(|garbage|, x requires 0 <= x < |garbage| =>
      if off <= x < off + 16 then TssBytes(tss)[x - off] else if x < limit then oldGdt[x] else garbage[x])
  }

  lemma DescriptorFits(limit: u16)
    ensures 8 * TrIndex(limit) + 16 <= 16 * (limit + 1)
  {
  }

  /** What `read_gdtr` and `write_gdtr` transfer. */
  datatype Gdtr = Gdtr(base: u64, limit: u16)

  /** `efi_gdt_init`.  `gdt` is the buffer allocated for the new table, at `gdtAddress`; it has limit + 1
      elements of 16 bytes, because the source's size expression divides 1 by 16.  `task` is the TSS, at `tss`. */
  method EfiGdtInit(limit: u16, oldGdt: bytes, gdt: array<u8>, gdtAddress: u64, task: array<u8>, tss: u64)
    returns (gdtr: Gdtr, tr: u16)
    requires limit <= |oldGdt| && gdt.Length == 16 * (limit + 1) && task.Length == TSS_SIZE && gdt != task
    modifies gdt, task
    ensures gdt[..] == NewGdt(limit, oldGdt, old(gdt[..]), tss)
    ensures forall k :: 0 <= k < TSS_SIZE ==> task[k] == 0
    ensures gdtr == Gdtr(gdtAddress, (limit + 16) % U16_SIZE) && tr == 8 * TrIndex(limit)
  {
    hide LeBytes;
    DescriptorFits(limit);
    ghost var garbage := gdt[..];
    forall x | 0 <= x < limit { gdt[x] := oldGdt[x]; }
    var index := (limit + 1) / 8 % 8192;
    tr := index * 8;
    gdtr := Gdtr(gdtAddress, (limit + 16) % U16_SIZE);
    var off := 8 * index;
    WriteTss(gdt, off, tss);
    assert gdt[..] == NewGdt(limit, oldGdt, garbage, tss);
    forall k | 0 <= k < TSS_SIZE { task[k] := 0; }
    assert gdt[..] == NewGdt(limit, oldGdt, garbage, tss);
  }

  /** The field assignments through `tss_descriptor`: clear, then size, base, access byte. */
  method WriteTss(gdt: array<u8>, off: nat, tss: u64)
    requires off + 16 <= gdt.Length
    modifies gdt
    ensures forall x :: 0 <= x < gdt.Length ==> gdt[x] == if off <= x < off + 16 then TssBytes(tss)[x - off] else old(gdt[x])
  {
    hide LeBytes;
    var a := LeBytes(tss, 8);
    var d: bytes := seq(16, _ => 0);
    d := d[0 := (TSS_SIZE - 1) % 0x100][1 := (TSS_SIZE - 1) / 0x100];
    d := d[2 := a[0]][3 := a[1]];
    d := d[4 := a[2]];
    d := d[7 := a[3]];
    d := d[8 := a[4]][9 := a[5]][10 := a[6]][11 := a[7]];
    d := d[5 := 0x89];
    assert d == TssBytes(tss);
    forall k | 0 <= k < 16 { gdt[off + k] := d[k]; }
  }

  /** Every field of the descriptor: the limit of a TSS of 4 + 3 * 8 + 8 + 7 * 8 + 8 + 2 + 2 bytes in byte
      granularity, type 9 (an available 64-bit TSS), a system descriptor of privilege 0, present, and zeros in the
      reserved bytes. */
  lemma TssDescriptorFields(tss: u64)
    ensures var b := TssBytes(tss);
            && b[0] as int + b[1] as int * 0x100 + b[6] as int % 16 * 0x1_0000 + 1 == 4 + 3 * 8 + 8 + 7 * 8 + 8 + 2 + 2
            && b[5] % 16 == 9 && b[5] / 16 % 2 == 0 && b[5] / 32 % 4 == 0 && b[5] / 128 == 1
            && b[6] / 16 == 0 && b[12] == 0 && b[13] == 0 && b[14] == 0 && b[15] == 0
  {
    hide LeBytes;
  }

  /** Every byte of the new table: the descriptor at the end of the old one, the old table but for its last
      byte, and below and above what the allocation held. */
  lemma NewGdtBytes(limit: u16, oldGdt: bytes, garbage: bytes, tss: u64, x: nat)
    requires limit <= |oldGdt| && |garbage| == 16 * (limit + 1) && x < |garbage|
    ensures var off := (limit + 1) % 0x1_0000 - (limit + 1) % 8;
            NewGdt(limit, oldGdt, garbage, tss)[x]
            == if off <= x < off + 16 then TssBytes(tss)[x - off] else if x < limit then oldGdt[x] else garbage[x]
  {
    hide TssBytes;
    DivMod(limit + 1, 8);
    if limit == 0xFFFF {
      assert TrIndex(limit) == 0;
    } else {
      DivModUnique((limit + 1) / 8, 8192, 0, (limit + 1) / 8);
    }
  }

  // --------------------------------------------------------------- round trip

  /** The table holds the descriptor of a TSS at `tss`, in state available or busy. */
  ghost predicate HoldsTss(gdt: bytes, off: nat, tss: u64)
  {
    && off + 16 <= |gdt|
    && (forall k :: 0 <= k < 16 && k != 5 ==> gdt[off + k] == TssBytes(tss)[k])
    && (gdt[off + 5] == 0x89 || gdt[off + 5] == 0x8B)
  }

  /** The reader finds the address the writer encoded. */
  lemma TssReadBack(gdt: bytes, off: nat, tss: u64)
    requires HoldsTss(gdt, off, tss)
    ensures IsLong(gdt, off) && DescriptorBase(gdt, off) == tss
  {
    hide And, Or, LeBytes, LeValue, PromotedShift24;
    var a := LeBytes(tss, 8);
    var lo := a[0] as int + a[1] as int * 0x100;
    BaseBytes(a[3], a[2], lo);
    var b := TssBytes(tss);
    assert gdt[off + 2] == b[2] && gdt[off + 3] == b[3] && gdt[off + 4] == b[4] && gdt[off + 7] == b[7];
    assert gdt[off + 8] == b[8] && gdt[off + 9] == b[9] && gdt[off + 10] == b[10] && gdt[off + 11] == b[11];
    assert gdt[off + 8..off + 12] == a[4..8];
    var upper := LeValue(a[4..8]);
    AddressHalves(tss);
    LongBase(lo + a[2] as int * 0x1_0000 + a[3] as int * 0x100_0000, upper);
  }

  /** An address is its low four bytes and its high four bytes. */
  lemma AddressHalves(tss: u64)
    ensures var a := LeBytes(tss, 8);
            && LeValue(a[4..8]) < U32_SIZE
            && tss == a[0] as int + a[1] as int * 0x100 + a[2] as int * 0x1_0000 + a[3] as int * 0x100_0000
                      + LeValue(a[4..8]) * U32_SIZE
  {
    hide LeBytes, Pow2;
    var a := LeBytes(tss, 8);
    Pow2Values();
    LeRoundTrip(tss, 8);
    LeBound(a[4..8]);
    assert a[1..][1..] == a[2..] && a[2..][1..] == a[3..] && a[3..][1..] == a[4..] && a[4..] == a[4..8];
    assert LeValue(a[3..]) == a[3] + 0x100 * LeValue(a[4..8]);
    assert LeValue(a[2..]) == a[2] + 0x100 * LeValue(a[3..]);
    assert LeValue(a[1..]) == a[1] + 0x100 * LeValue(a[2..]);
  }

  lemma NewGdtHoldsTss(limit: u16, oldGdt: bytes, garbage: bytes, tss: u64)
    requires limit <= |oldGdt| && |garbage| == 16 * (limit + 1)
    ensures HoldsTss(NewGdt(limit, oldGdt, garbage, tss), 8 * TrIndex(limit), tss)
  {
    hide LeBytes;
    DescriptorFits(limit);
    var off := 8 * TrIndex(limit);
    var gdt := NewGdt(limit, oldGdt, garbage, tss);
    assert forall k :: 0 <= k < 16 ==> gdt[off + k] == TssBytes(tss)[k];
  }

  /** The task register's selector leads back to the TSS, for every TSS address, exactly when the old
      limit leaves the new descriptor a non-zero 13-bit index. */
  lemma RoundTripExactly(limit: u16, oldGdt: bytes, garbage: bytes)
    requires limit <= |oldGdt| && |garbage| == 16 * (limit + 1)
    ensures forall tss: u64 :: Within(NewGdt(limit, oldGdt, garbage, tss), 8 * TrIndex(limit), |garbage|)
    ensures (forall tss: u64 :: SegmentBase(NewGdt(limit, oldGdt, garbage, tss), 8 * TrIndex(limit)) == tss)
       <==> 7 <= limit < 0xFFFF
  {
    hide DescriptorBase, NewGdt, HoldsTss;
    var off := 8 * TrIndex(limit);
    assert TrIndex(limit) == 0 <==> limit < 7 || limit == 0xFFFF;
    forall tss: u64
      ensures Within(NewGdt(limit, oldGdt, garbage, tss), off, |garbage|)
      ensures SegmentBase(NewGdt(limit, oldGdt, garbage, tss), off) == if TrIndex(limit) == 0 then 0 else tss
    {
      NewGdtHoldsTss(limit, oldGdt, garbage, tss);
      SelectorReadBack(NewGdt(limit, oldGdt, garbage, tss), TrIndex(limit), 0, 0, tss);
    }
    if limit < 7 || limit == 0xFFFF {
      assert SegmentBase(NewGdt(limit, oldGdt, garbage, 1), off) != 1;
    }
  }

  /** A selector for the descriptor: null reads as zero, any other index as the TSS address. */
  lemma SelectorReadBack(gdt: bytes, index: nat, local: nat, rpl: nat, tss: u64)
    requires index < 8192 && local < 2 && rpl < 4 && HoldsTss(gdt, 8 * index, tss)
    ensures SelectorIndex(8 * index + 4 * local + rpl) == index && Within(gdt, 8 * index, |gdt|)
    ensures SegmentBase(gdt, 8 * index + 4 * local + rpl) == if index == 0 || local == 1 then 0 else tss
  {
    hide DescriptorBase;
    TssReadBack(gdt, 8 * index, tss);
    DivModUnique(8 * index + 4 * local + rpl, 8, index, 4 * local + rpl);
    DivModUnique(8 * index + 4 * local + rpl, 4, 2 * index + local, rpl);
  }

  /** Once the processor has marked the TSS busy, the address still reads back. */
  lemma BusyRoundTrip(limit: u16, oldGdt: bytes, garbage: bytes, tss: u64)
    requires 7 <= limit < 0xFFFF && limit <= |oldGdt| && |garbage| == 16 * (limit + 1)
    ensures var off := 8 * TrIndex(limit);
            var gdt: bytes := NewGdt(limit, oldGdt, garbage, tss)[off + 5 := 0x8B];
            Within(gdt, off, |gdt|) && SegmentBase(gdt, off) == tss
  {
    hide DescriptorBase, NewGdt, SegmentBase, Within, TssBytes;
    var off := 8 * TrIndex(limit);
    NewGdtHoldsTss(limit, oldGdt, garbage, tss);
    var gdt: bytes := NewGdt(limit, oldGdt, garbage, tss)[off + 5 := 0x8B];
    assert HoldsTss(gdt, off, tss);
    SelectorReadBack(gdt, TrIndex(limit), 0, 0, tss);
  }

  /** With a limit one less than a multiple of 8, the new descriptor is the last thing in the new table. */
  lemma NewLimitCoversDescriptor(limit: u16)
    requires (limit + 1) % 8 == 0 && limit + 16 <= 0xFFFF
    ensures 8 * TrIndex(limit) == limit + 1 && 8 * TrIndex(limit) + 15 == (limit + 16) % U16_SIZE
  {
  }

  /** A code, data or other non-TSS descriptor has the 32-bit base of its own eight bytes. */
  lemma ShortBase(gdt: bytes, off: nat)
    requires off + 8 <= |gdt|
    requires gdt[off + 5] / 16 % 2 == 1 || (gdt[off + 5] % 16 != TYPE_TSS_AVAILABLE && gdt[off + 5] % 16 != TYPE_TSS_BUSY)
    ensures Within(gdt, off, |gdt|)
    ensures DescriptorBase(gdt, off) == gdt[off + 2] as int + gdt[off + 3] as int * 0x100
                                        + gdt[off + 4] as int * 0x1_0000 + gdt[off + 7] as int * 0x100_0000
  {
    hide And, Or, PromotedShift24;
    BaseBytes(gdt[off + 7], gdt[off + 4], gdt[off + 2] as int + gdt[off + 3] as int * 0x100);
  }

  // ------------------------------------------------------------ old descriptors

  /** Equal bytes give an equal base. */
  lemma SameBytesSameBase(g: bytes, g': bytes, off: nat, end: nat)
    requires end <= |g| && end <= |g'| && Within(g, off, end)
    requires forall x :: off <= x < end ==> g[x] == g'[x]
    ensures Within(g', off, end) && DescriptorBase(g', off) == DescriptorBase(g, off)
  {
    hide And, Or, LeValue;
    if IsLong(g, off) {
      assert g[off + 8..off + 12] == g'[off + 8..off + 12];
    }
  }

  /** Descriptors that end before the old table's last byte keep their base. */
  lemma OldDescriptorsKept(limit: u16, oldGdt: bytes, garbage: bytes, tss: u64, d: nat)
    requires limit < |oldGdt| && |garbage| == 16 * (limit + 1) && limit < 0xFFFF && Within(oldGdt, 8 * d, limit)
    ensures var gdt := NewGdt(limit, oldGdt, garbage, tss);
            Within(gdt, 8 * d, |gdt|) && DescriptorBase(gdt, 8 * d) == DescriptorBase(oldGdt, 8 * d)
  {
    hide DescriptorBase, TssBytes, IsLong;
    var gdt := NewGdt(limit, oldGdt, garbage, tss);
    var end := if IsLong(oldGdt, 8 * d) then 8 * d + 16 else 8 * d + 8;
    assert end <= 8 * TrIndex(limit);
    SameBytesSameBase(oldGdt, gdt, 8 * d, end);
  }

  /** The last descriptor of the old table loses the top byte of its base unless the buffer happened
      to hold it: one byte too few is copied. */
  lemma LastDescriptorExactly(limit: u16, oldGdt: bytes, garbage: bytes, tss: u64)
    requires limit < |oldGdt| && |garbage| == 16 * (limit + 1) && (limit + 1) % 8 == 0 && limit < 0xFFFF
    requires !IsLong(oldGdt, limit - 7)
    ensures var gdt := NewGdt(limit, oldGdt, garbage, tss);
            && Within(gdt, limit - 7, |gdt|)
            && (DescriptorBase(gdt, limit - 7) == DescriptorBase(oldGdt, limit - 7) <==> garbage[limit] == oldGdt[limit])
  {
    hide And, Or, LeValue, TssBytes, PromotedShift24;
    var gdt := NewGdt(limit, oldGdt, garbage, tss);
    var off := limit - 7;
    NewLimitIndex(limit);
    assert forall x :: off <= x < limit ==> gdt[x] == oldGdt[x];
    assert gdt[limit] == garbage[limit];
    var low := oldGdt[off + 2] as int + oldGdt[off + 3] as int * 0x100;
    BaseBytes(oldGdt[limit], oldGdt[off + 4], low);
    BaseBytes(garbage[limit], oldGdt[off + 4], low);
  }

  lemma NewLimitIndex(limit: u16)
    requires (limit + 1) % 8 == 0 && limit < 0xFFFF
    ensures 8 * TrIndex(limit) == limit + 1
  {
  }
}

/** The MTRR table of hypervisor/ept.cc: the registers, the intervals they decode to, and
    the code that fills the bounded table.  Register layouts are those of Intel SDM
    Vol. 3A section 11.11.2. */
module Mtrr {
  import opened Bits
  import opened BitOps

  const IA32_MTRR_CAPABILITIES: u32 := 0xFE
  const IA32_MTRR_PHYSBASE0: u32 := 0x200
  const IA32_MTRR_PHYSMASK0: u32 := 0x201
  const IA32_MTRR_FIX64K_00000: u32 := 0x250
  const IA32_MTRR_FIX16K_80000: u32 := 0x258
  const IA32_MTRR_FIX16K_A0000: u32 := 0x259
  const IA32_MTRR_FIX4K_C0000: u32 := 0x268
  const IA32_MTRR_FIX4K_C8000: u32 := 0x269
  const IA32_MTRR_FIX4K_D0000: u32 := 0x26A
  const IA32_MTRR_FIX4K_D8000: u32 := 0x26B
  const IA32_MTRR_FIX4K_E0000: u32 := 0x26C
  const IA32_MTRR_FIX4K_E8000: u32 := 0x26D
  const IA32_MTRR_FIX4K_F0000: u32 := 0x26E
  const IA32_MTRR_FIX4K_F8000: u32 := 0x26F
  const IA32_MTRR_DEF_TYPE: u32 := 0x2FF

  const MAX_FIXED: nat := (1 + 2 + 8) * 8
  const MAX_VARIABLE: nat := 255
  const MAX_MTRRS: nat := MAX_FIXED + MAX_VARIABLE
  const FIXED_BANKS: nat := 11

  /** The model-specific registers: what `read_msr` returns for each register number. */
  type Msrs = u32 -> u64

  /** One element of `g_mtrrs`. */
  datatype Entry = Entry(enabled: bool, fixed: bool, typ: u8, begin: u64, end: u64) {
    predicate Contains(a: nat) { begin <= a < end }
  }

  const EMPTY: Entry := Entry(false, false, 0, 0, 0)

  // ------------------------------------------------------- register decoding

  /** Byte `i` of a register. */
  function Byte(w: u64, i: nat): u8
    requires i < 8
  {
    if i == 0 then w % 0x100
    else if i == 1 then w / 0x100 % 0x100
    else if i == 2 then w / 0x1_0000 % 0x100
    else if i == 3 then w / 0x100_0000 % 0x100
    else if i == 4 then w / 0x1_0000_0000 % 0x100
    else if i == 5 then w / 0x100_0000_0000 % 0x100
    else if i == 6 then w / 0x1_0000_0000_0000 % 0x100
    else w / 0x100_0000_0000_0000
  }

  /** The bytes of a register are its 8-bit fields. */
  lemma ByteIsField(w: u64, i: nat)
    requires i < 8
    ensures Byte(w, i) == Field(w, 8 * i, 8)
  {
    hide Pow2;
    Pow2Values();
    Pow2Add(8, 8);
    Pow2Add(16, 8);
    Pow2Add(32, 8);
    Pow2Add(48, 8);
    ByteZero();
  }

  lemma ByteZero()
    ensures Pow2(0) == 1
  {
  }

  /** A 36-bit page frame number field, bits 12 to 47. */
  function FrameField(w: u64): (pfn: nat)
    ensures pfn < 0x10_0000_0000
  {
    w / 0x1000 % 0x10_0000_0000
  }

  function DefaultType(regs: Msrs): u8 { Byte(regs(IA32_MTRR_DEF_TYPE), 0) }

  function VariableCount(regs: Msrs): (n: nat)
    ensures n <= MAX_VARIABLE
  {
    Byte(regs(IA32_MTRR_CAPABILITIES), 0)
  }

  /** Fixed ranges are supported (bit 8) and enabled (bit 10). */
  predicate FixedOn(regs: Msrs)
  {
    regs(IA32_MTRR_CAPABILITIES) / 0x100 % 2 == 1 && regs(IA32_MTRR_DEF_TYPE) / 0x400 % 2 == 1
  }

  /** The register fields read above are bit fields. */
  lemma RegisterFields(w: u64)
    ensures FrameField(w) == Field(w, 12, 36) && w / 0x100 % 2 == Field(w, 8, 1)
    ensures w / 0x400 % 2 == Field(w, 10, 1) && w / 0x800 % 2 == Field(w, 11, 1)
  {
    hide Pow2;
    Pow2Values();
    Pow2Add(9, 1);
    Pow2Add(8, 3);
  }

  function PhysBase(regs: Msrs, i: nat): u64
    requires i < MAX_VARIABLE
  {
    regs(IA32_MTRR_PHYSBASE0 + i * 2)
  }

  function PhysMask(regs: Msrs, i: nat): u64
    requires i < MAX_VARIABLE
  {
    regs(IA32_MTRR_PHYSMASK0 + i * 2)
  }

  /** The valid bit, bit 11 of the mask register. */
  predicate VariableOn(regs: Msrs, i: nat)
    requires i < MAX_VARIABLE
  {
    PhysMask(regs, i) / 0x800 % 2 == 1
  }

  /** The bit scan needs a set bit: no enabled variable range has an empty mask. */
  predicate MasksNonZero(regs: Msrs)
  {
    forall i :: 0 <= i < VariableCount(regs) && VariableOn(regs, i) ==> FrameField(PhysMask(regs, i)) != 0
  }

  // ---------------------------------------------------------- table contents

  /** One call of the fixed-range reader: eight consecutive ranges of one size. */
  datatype Bank = Bank(msr: u32, base: nat, size: nat)

  /** The banks in the order in which they are read. */
  function FixedBank(k: nat): (b: Bank)
    requires k < FIXED_BANKS
    ensures b.base + 8 * b.size <= 0x100000
  {
    if k == 0 then Bank(0x250, 0, 0x10000)
    else if k < 3 then Bank(0x258 + (k - 1), 0x80000 + (k - 1) * 0x20000, 0x4000)
    else Bank(0x268 + (k - 3), 0xC0000 + (k - 3) * 0x8000, 0x1000)
  }

  function FixedEntry(regs: Msrs, b: Bank, i: nat): Entry
    requires i < 8 && b.base + 8 * b.size < U64_SIZE
  {
    assert b.size * i + b.size <= 8 * b.size by { MulLe(i + 1, 8, b.size); }
    Entry(true, true, Byte(regs(b.msr), i), b.base + b.size * i, b.base + b.size * i + b.size)
  }

  lemma FixedEntryFits(regs: Msrs, b: Bank, i: nat)
    requires i < 8 && b.base + 8 * b.size < U64_SIZE
    ensures 0 <= b.size * i && b.size * i + b.size == b.size * (i + 1) <= 8 * b.size
    ensures FixedEntry(regs, b, i)
         == Entry(true, true, Byte(regs(b.msr), i), b.base + b.size * i, b.base + b.size * i + b.size)
  {
    hide Byte;
    MulLe(i + 1, 8, b.size);
    MulLe(0, i, b.size);
  }

  function BankEntries(regs: Msrs, b: Bank): (s: seq<Entry>)
    requires b.base + 8 * b.size < U64_SIZE
  {
    seq(8, i requires 0 <= i < 8 => FixedEntry(regs, b, i))
  }

  function FixedTable(regs: Msrs, banks: nat): (s: seq<Entry>)
    requires banks <= FIXED_BANKS
    ensures |s| == 8 * banks
  {
    if banks == 0 then [] else FixedTable(regs, banks - 1) + BankEntries(regs, FixedBank(banks - 1))
  }

  /** The size a mask selects: the lowest set bit of the mask, in pages. */
  function RangeSize(maskFrame: nat): (size: nat)
    requires 0 < maskFrame < 0x10_0000_0000
    ensures 0x1000 <= size < 0x1_0000_0000_0000 && size % 0x1000 == 0
  {
    var size := Pow2(Bsf(maskFrame));
    DivModUnique(size * 0x1000, 0x1000, size, 0);
    size * 0x1000
  }

  function VariableEntry(regs: Msrs, i: nat): Entry
    requires i < MAX_VARIABLE && FrameField(PhysMask(regs, i)) != 0
  {
    var begin := FrameField(PhysBase(regs, i)) * 0x1000;
    var size := RangeSize(FrameField(PhysMask(regs, i)));
    Entry(true, false, Byte(PhysBase(regs, i), 0), begin, begin + size)
  }

  function VariableTable(regs: Msrs, n: nat): (s: seq<Entry>)
    requires n <= VariableCount(regs) && MasksNonZero(regs)
    ensures |s| <= n
  {
    if n == 0 then []
    else VariableTable(regs, n - 1) + if VariableOn(regs, n - 1) then [VariableEntry(regs, n - 1)] else []
  }

  function FixedPart(regs: Msrs): seq<Entry>
  {
    if FixedOn(regs) then FixedTable(regs, FIXED_BANKS) else []
  }

  /** Everything the initialiser decodes from the registers. */
  function TableOf(regs: Msrs): (s: seq<Entry>)
    requires MasksNonZero(regs)
    ensures |s| <= MAX_MTRRS
  {
    FixedPart(regs) + VariableTable(regs, VariableCount(regs))
  }

  // ------------------------------------------------------------------- code

  class MtrrState {
    const table: array<Entry>
    var defaultType: u8

    constructor ()
      ensures Valid() && fresh(table)
    {
      table := new Entry[MAX_MTRRS](_ => EMPTY);
      defaultType := 0;
    }

    predicate Valid() { table.Length == MAX_MTRRS }

    /** `ept_read_fixed_mtrrs`: appends the eight ranges of one register. */
    method ReadFixed(regs: Msrs, msr: u32, base: u64, offset: u64, size: u64, index: nat)
      returns (offset': u64, index': nat)
      requires Valid()
      requires base + 8 * size < U64_SIZE && offset + 8 * size < U64_SIZE
      requires index + 8 <= MAX_MTRRS
      modifies table
      ensures offset' == offset + 8 * size && index' == index + 8
      ensures table[..index] == old(table[..index])
      ensures table[index..index + 8] == BankEntries(regs, Bank(msr, base, size))
      ensures table[index + 8..] == old(table[index + 8..])
    {
      hide Byte, FixedEntry;
      var range := regs(msr);
      offset' := offset;
      index' := index;
      ghost var bank := BankEntries(regs, Bank(msr, base, size));
      var i := 0;
      while i < 8
        invariant i <= 8 && index' == index + i && offset' == offset + size * i
        invariant forall j :: 0 <= j < index ==> table[j] == old(table[j])
        invariant forall j :: 0 <= j < i ==> table[index + j] == bank[j]
        invariant forall j :: index + i <= j < MAX_MTRRS ==> table[j] == old(table[j])
      {
        FixedEntryFits(regs, Bank(msr, base, size), i);
        var currBase := base + size * i;
        offset' := offset' + size;
        table[index'] := Entry(true, true, Byte(range, i), currBase, currBase + size);
        index' := index' + 1;
        i := i + 1;
      }
    }

    /** One bank of the fixed part, in the position it has in the table. */
    method ReadBank(regs: Msrs, msr: u32, base: u64, offset: u64, size: u64, index: nat, ghost k: nat)
      returns (offset': u64, index': nat)
      requires Valid()
      requires k < FIXED_BANKS && Bank(msr, base, size) == FixedBank(k)
      requires index == 8 * k && offset == base
      requires table[..index] == FixedTable(regs, k) && Rest(index)
      modifies table
      ensures index' == index + 8 && offset' == base + 8 * size
      ensures table[..index'] == FixedTable(regs, k + 1) && Rest(index')
    {
      offset', index' := ReadFixed(regs, msr, base, offset, size, index);
      assert table[..index'] == table[..index] + table[index..index'];
      assert forall j :: index' <= j < MAX_MTRRS ==> table[j] == table[index + 8..][j - index'];
    }

    /** Nothing from `index` on is enabled. */
    predicate Rest(index: nat)
      requires Valid()
      reads table
    {
      forall j :: index <= j < MAX_MTRRS ==> table[j] == EMPTY
    }

    /** `ept_init_mtrr`.  The terminator is written at `index`; `overran` says that this was
        one past the end of the table. */
    method InitMtrr(regs: Msrs) returns (overran: bool)
      requires Valid() && MasksNonZero(regs)
      modifies this, table
      ensures Valid() && defaultType == DefaultType(regs)
      ensures table[..|TableOf(regs)|] == TableOf(regs)
      ensures Rest(|TableOf(regs)|)
      ensures overran <==> |TableOf(regs)| == MAX_MTRRS
    {
      forall j | 0 <= j < MAX_MTRRS {
        table[j] := EMPTY;
      }
      defaultType := DefaultType(regs);
      var index := 0;
      if FixedOn(regs) {
        var offset: u64 := 0;
        offset, index := ReadBank(regs, IA32_MTRR_FIX64K_00000, 0, offset, 0x10000, index, 0);
        offset, index := ReadBank(regs, IA32_MTRR_FIX16K_80000, 0x80000, offset, 0x4000, index, 1);
        offset, index := ReadBank(regs, IA32_MTRR_FIX16K_A0000, 0xA0000, offset, 0x4000, index, 2);
        offset, index := ReadBank(regs, IA32_MTRR_FIX4K_C0000, 0xC0000, offset, 0x1000, index, 3);
        offset, index := ReadBank(regs, IA32_MTRR_FIX4K_C8000, 0xC8000, offset, 0x1000, index, 4);
        offset, index := ReadBank(regs, IA32_MTRR_FIX4K_D0000, 0xD0000, offset, 0x1000, index, 5);
        offset, index := ReadBank(regs, IA32_MTRR_FIX4K_D8000, 0xD8000, offset, 0x1000, index, 6);
        offset, index := ReadBank(regs, IA32_MTRR_FIX4K_E0000, 0xE0000, offset, 0x1000, index, 7);
        offset, index := ReadBank(regs, IA32_MTRR_FIX4K_E8000, 0xE8000, offset, 0x1000, index, 8);
        offset, index := ReadBank(regs, IA32_MTRR_FIX4K_F0000, 0xF0000, offset, 0x1000, index, 9);
        offset, index := ReadBank(regs, IA32_MTRR_FIX4K_F8000, 0xF8000, offset, 0x1000, index, 10);
        assert offset == 0x100000;
      }
      index := ReadVariable(regs, index);
      overran := index == MAX_MTRRS;
      if !overran {
        table[index] := table[index].(enabled := false);
      }
    }

    /** The variable-range loop of `ept_init_mtrr`. */
    method ReadVariable(regs: Msrs, start: nat) returns (index: nat)
      requires Valid() && MasksNonZero(regs)
      requires start == |FixedPart(regs)| && table[..start] == FixedPart(regs) && Rest(start)
      modifies table
      ensures index == |TableOf(regs)| && table[..index] == TableOf(regs) && Rest(index)
    {
      hide FrameField, Byte, RangeSize, FixedTable, VariableOn, VariableCount;
      index := start;
      for i := 0 to VariableCount(regs)
        invariant index == start + |VariableTable(regs, i)|
        invariant table[..index] == FixedPart(regs) + VariableTable(regs, i)
        invariant Rest(index)
      {
        if !VariableOn(regs, i) { continue; }
        var begin := FrameField(PhysBase(regs, i)) * 0x1000;
        var size := RangeSize(FrameField(PhysMask(regs, i)));
        table[index] := Entry(true, false, Byte(PhysBase(regs, i), 0), begin, begin + size);
        index := index + 1;
      }
    }
  }

  // --------------------------------------------------------- shape of the table

  /** The terminator overruns the table exactly when every fixed and every variable slot is in use. */
  lemma OverrunExactly(regs: Msrs)
    requires MasksNonZero(regs)
    ensures |TableOf(regs)| == MAX_MTRRS
       <==> FixedOn(regs) && VariableCount(regs) == MAX_VARIABLE && forall i :: 0 <= i < MAX_VARIABLE ==> VariableOn(regs, i)
  {
    VariableTableFull(regs, VariableCount(regs));
  }

  lemma {:induction false} VariableTableFull(regs: Msrs, n: nat)
    requires n <= VariableCount(regs) && MasksNonZero(regs)
    ensures |VariableTable(regs, n)| == n <==> forall i :: 0 <= i < n ==> VariableOn(regs, i)
  {
    hide VariableEntry, VariableCount, VariableOn;
    if n > 0 {
      VariableTableFull(regs, n - 1);
    }
  }

  /** Bounds of the e-th fixed range, in closed form. */
  function FixedBegin(e: nat): nat
  {
    if e < 8 then e * 0x10000 else if e < 24 then 0x80000 + (e - 8) * 0x4000 else 0xC0000 + (e - 24) * 0x1000
  }

  lemma BankEntryBounds(regs: Msrs, k: nat, i: nat)
    requires k < FIXED_BANKS && i < 8
    ensures FixedEntry(regs, FixedBank(k), i)
         == Entry(true, true, Byte(regs(FixedBank(k).msr), i), FixedBegin(8 * k + i), FixedBegin(8 * k + i + 1))
    ensures FixedBegin(8 * k + i) < FixedBegin(8 * k + i + 1) <= 0x100000
  {
    hide Byte;
    if k == 0 {
    } else if k < 3 {
    } else {
    }
  }

  /** The fixed part tiles [0, 1 MiB): range e starts where range e - 1 ends, and is typed by
      byte e % 8 of the register of bank e / 8. */
  lemma {:induction false} FixedTableShape(regs: Msrs, banks: nat, e: nat)
    requires banks <= FIXED_BANKS && e < 8 * banks
    ensures FixedTable(regs, banks)[e]
         == Entry(true, true, Byte(regs(FixedBank(e / 8).msr), e % 8), FixedBegin(e), FixedBegin(e + 1))
    ensures FixedBegin(0) == 0 && FixedBegin(e) < FixedBegin(e + 1) <= 0x100000 && FixedBegin(MAX_FIXED) == 0x100000
  {
    hide Byte, FixedEntry, FixedBank;
    if e < 8 * (banks - 1) {
      FixedTableShape(regs, banks - 1, e);
    } else {
      var i := e - 8 * (banks - 1);
      BankEntryBounds(regs, banks - 1, i);
      assert FixedTable(regs, banks)[e] == BankEntries(regs, FixedBank(banks - 1))[i];
    }
  }

  /** Every enabled variable register contributes its interval, and nothing else is in the table. */
  lemma {:induction false} VariableTableContents(regs: Msrs, n: nat, e: Entry)
    requires n <= VariableCount(regs) && MasksNonZero(regs)
    ensures e in VariableTable(regs, n) <==> exists i :: 0 <= i < n && VariableOn(regs, i) && e == VariableEntry(regs, i)
  {
    hide VariableEntry, VariableCount, VariableOn;
    if n > 0 {
      VariableTableContents(regs, n - 1, e);
    }
  }
}

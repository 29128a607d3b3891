/** `elf_mapper::map_to` and `resolve_import` of freestanding/elf_mapper.cc: the section scan, the
    GOT loop and the RELA loop, and the list of writes they perform. */
module ElfMapper {
  import opened Wrappers
  import opened Bits
  import opened Bytes
  import opened ElfSegments
  import opened ElfReloc

  const SHT_STRTAB: u32 := 3
  const SHT_RELA: u32 := 4
  const SHT_DYNSYM: u32 := 11
  const R_GLOB_DAT: nat := 6
  const R_JUMP_SLOT: nat := 7
  const R_RELATIVE: nat := 8
  const RELA_SIZE: nat := 24
  const SYM_SIZE: nat := 24

  datatype Shdr = Shdr(name: u32, typ: u32, addr: u64, offset: u64, size: u64)
  datatype Rela = Rela(offset: u64, info: u64, addend: u64)
  datatype Sym = Sym(name: u32, value: u64)
  datatype Import = Import(name: bytes, address: u64)

  /** An ELF file with its headers parsed. */
  datatype File = File(contents: bytes, phdrs: seq<Phdr>, shdrs: seq<Shdr>, shstrndx: nat)

  /** n bytes of the file; what lies beyond its end reads as zero. */
  function Peek(b: bytes, off: nat, n: nat): (r: bytes)
    ensures |r| == n
  {
    seq<u8>(n, k requires 0 <= k < n => if off + k < |b| then b[off + k] else 0)
  }

  function Read64(b: bytes, off: nat): u64 { Load64(Peek(b, off, 8), 0) }

  function Read32(b: bytes, off: nat): u32 { Read64(b, off) % U32_SIZE }

  /** The C string at an offset. */
  function CString(b: bytes, off: nat): bytes
    decreases |b| - off
  {
    if off >= |b| || b[off] == 0 then [] else [b[off]] + CString(b, off + 1)
  }

  function DotGot(): bytes { [0x2E, 0x67, 0x6F, 0x74] }

  function DotDynstr(): bytes { [0x2E, 0x64, 0x79, 0x6E, 0x73, 0x74, 0x72] }

  function SectionName(f: File, sh: Shdr): bytes
    requires f.shstrndx < |f.shdrs|
  {
    CString(f.contents, f.shdrs[f.shstrndx].offset + sh.name)
  }

  predicate IsDynstr(f: File, sh: Shdr)
    requires f.shstrndx < |f.shdrs|
  {
    sh.typ == SHT_STRTAB && SectionName(f, sh) == DotDynstr()
  }

  /** The first section from index i on that is the dynamic string table. */
  function FindDynstr(f: File, i: nat): Option<Shdr>
    requires f.shstrndx < |f.shdrs| && i <= |f.shdrs|
    decreases |f.shdrs| - i
  {
    if i == |f.shdrs| then None
    else if IsDynstr(f, f.shdrs[i]) then Some(f.shdrs[i])
    else FindDynstr(f, i + 1)
  }

  /** The first section from index i on that is the dynamic symbol table. */
  function FindDynsym(f: File, i: nat): Option<Shdr>
    requires i <= |f.shdrs|
    decreases |f.shdrs| - i
  {
    if i == |f.shdrs| then None
    else if f.shdrs[i].typ == SHT_DYNSYM then Some(f.shdrs[i])
    else FindDynsym(f, i + 1)
  }

  /** The search finds the first dynamic string table... */
  lemma {:induction false} DynstrIsFirst(f: File, i: nat, j: nat)
    requires f.shstrndx < |f.shdrs| && i <= j < |f.shdrs| && IsDynstr(f, f.shdrs[j])
    requires forall l :: i <= l < j ==> !IsDynstr(f, f.shdrs[l])
    ensures FindDynstr(f, i) == Some(f.shdrs[j])
    decreases j - i
  {
    hide SectionName;
    if i < j {
      DynstrIsFirst(f, i + 1, j);
    }
  }

  /** ... and nothing exactly when there is none. */
  lemma {:induction false} DynstrMissing(f: File, i: nat)
    requires f.shstrndx < |f.shdrs| && i <= |f.shdrs|
    ensures FindDynstr(f, i) == None <==> forall l :: i <= l < |f.shdrs| ==> !IsDynstr(f, f.shdrs[l])
    decreases |f.shdrs| - i
  {
    hide SectionName;
    if i < |f.shdrs| {
      DynstrMissing(f, i + 1);
    }
  }

  /** The search finds the first dynamic symbol table... */
  lemma {:induction false} DynsymIsFirst(f: File, i: nat, j: nat)
    requires i <= j < |f.shdrs| && f.shdrs[j].typ == SHT_DYNSYM
    requires forall l :: i <= l < j ==> f.shdrs[l].typ != SHT_DYNSYM
    ensures FindDynsym(f, i) == Some(f.shdrs[j])
    decreases j - i
  {
    if i < j {
      DynsymIsFirst(f, i + 1, j);
    }
  }

  /** ... and nothing exactly when there is none. */
  lemma {:induction false} DynsymMissing(f: File, i: nat)
    requires i <= |f.shdrs|
    ensures FindDynsym(f, i) == None <==> forall l :: i <= l < |f.shdrs| ==> f.shdrs[l].typ != SHT_DYNSYM
    decreases |f.shdrs| - i
  {
    if i < |f.shdrs| {
      DynsymMissing(f, i + 1);
    }
  }

  function RelaAt(f: File, sh: Shdr, k: nat): Rela
  {
    var off := sh.offset + k * RELA_SIZE;
    Rela(Read64(f.contents, off), Read64(f.contents, off + 8), Read64(f.contents, off + 16))
  }

  function SymAt(f: File, dynsym: Shdr, k: nat): Sym
  {
    var off := dynsym.offset + k * SYM_SIZE;
    Sym(Read32(f.contents, off), Read64(f.contents, off + 8))
  }

  function ResolveFrom(imports: seq<Import>, name: bytes, i: nat): u64
    requires i <= |imports|
    decreases |imports| - i
  {
    if i == |imports| then 0
    else if imports[i].name == name then imports[i].address
    else ResolveFrom(imports, name, i + 1)
  }

  // ---------------------------------------------------------------- the writes

  predicate IsGot(f: File, sh: Shdr)
    requires f.shstrndx < |f.shdrs|
  {
    SectionName(f, sh) == DotGot()
  }

  /** The first n writes of the GOT loop. */
  function GotOps(sh: Shdr, n: nat): seq<Op>
  {
    if n == 0 then [] else GotOps(sh, n - 1) + [AddBase(sh.addr + (n - 1) * 8)]
  }

  datatype Symbols = Symbols(dynstr: Shdr, dynsym: Shdr)

  /** The value an import or symbol relocation stores.  An internal symbol is given the addend of
      the relocation whose number is the section's, and no base. */
  function SymbolValue(f: File, imports: seq<Import>, y: Symbols, section: nat, info: u64): u64
    requires section < |f.shdrs|
  {
    var sym := SymAt(f, y.dynsym, info / U32_SIZE);
    if sym.value == 0 then ResolveFrom(imports, CString(f.contents, y.dynstr.offset + sym.name), 0)
    else (sym.value + RelaAt(f, f.shdrs[section], section).addend) % U64_SIZE
  }

  /** The relocation types the loop acts on; it only logs the others. */
  predicate Handled(info: u64) { info % U32_SIZE in {R_RELATIVE, R_JUMP_SLOT, R_GLOB_DAT} }

  /** The write of relocation k of a section, if its type is one that is handled. */
  function RelaOp(f: File, imports: seq<Import>, y: Symbols, section: nat, k: nat): seq<Op>
    requires section < |f.shdrs|
  {
    var r := RelaAt(f, f.shdrs[section], k);
    var typ := r.info % U32_SIZE;
    if typ == R_RELATIVE then [AddBase(r.offset)]
    else if typ == R_JUMP_SLOT || typ == R_GLOB_DAT then [Assign(r.offset, SymbolValue(f, imports, y, section, r.info))]
    else []
  }

  /** The first n relocations of a section. */
  function RelaOps(f: File, imports: seq<Import>, y: Symbols, section: nat, n: nat): seq<Op>
    requires section < |f.shdrs|
  {
    if n == 0 then [] else RelaOps(f, imports, y, section, n - 1) + RelaOp(f, imports, y, section, n - 1)
  }

  function GotCount(f: File, section: nat): nat
    requires f.shstrndx < |f.shdrs| && section < |f.shdrs|
  {
    if IsGot(f, f.shdrs[section]) then f.shdrs[section].size / 8 else 0
  }

  function RelaCount(f: File, section: nat): nat
    requires section < |f.shdrs|
  {
    if f.shdrs[section].typ == SHT_RELA then f.shdrs[section].size / RELA_SIZE else 0
  }

  function SectionOps(f: File, imports: seq<Import>, y: Symbols, section: nat): seq<Op>
    requires f.shstrndx < |f.shdrs| && section < |f.shdrs|
  {
    GotOps(f.shdrs[section], GotCount(f, section)) + RelaOps(f, imports, y, section, RelaCount(f, section))
  }

  /** All writes of the first n sections.  The load base does not occur. */
  function AllOps(f: File, imports: seq<Import>, y: Symbols, n: nat): seq<Op>
    requires f.shstrndx < |f.shdrs| && n <= |f.shdrs|
  {
    if n == 0 then [] else AllOps(f, imports, y, n - 1) + SectionOps(f, imports, y, n - 1)
  }

  /** The symbol tables the relocation loop reads; it needs both as soon as it has work. */
  function SymbolsOf(f: File): Symbols
    requires f.shstrndx < |f.shdrs|
  {
    var none := Shdr(0, 0, 0, 0, 0);
    var s, d := FindDynstr(f, 0), FindDynsym(f, 0);
    Symbols(if s.Some? then s.value else none, if d.Some? then d.value else none)
  }

  ghost predicate HasSymbols(f: File)
    requires f.shstrndx < |f.shdrs|
  {
    (exists i :: 0 <= i < |f.shdrs| && RelaCount(f, i) > 0) ==> FindDynstr(f, 0).Some? && FindDynsym(f, 0).Some?
  }

  /** Every relocation write lands inside an image of this size. */
  ghost predicate WritesFit(f: File, size: nat)
    requires f.shstrndx < |f.shdrs|
  {
    forall i :: 0 <= i < |f.shdrs| ==> SectionFits(f, i, size)
  }

  ghost predicate SectionFits(f: File, i: nat, size: nat)
    requires f.shstrndx < |f.shdrs| && i < |f.shdrs|
  {
    && (GotCount(f, i) > 0 ==> f.shdrs[i].addr + GotCount(f, i) * 8 <= size)
    && forall k :: 0 <= k < RelaCount(f, i) ==> RelaFits(f, i, k, size)
  }

  lemma {:induction false} GotFits(sh: Shdr, n: nat, size: nat)
    requires n > 0 ==> sh.addr + n * 8 <= size
    ensures InImage(GotOps(sh, n), size)
  {
    if n > 0 {
      GotFits(sh, n - 1, size);
    }
  }

  predicate RelaFits(f: File, i: nat, k: nat, size: nat)
    requires i < |f.shdrs|
  {
    var r := RelaAt(f, f.shdrs[i], k);
    Handled(r.info) ==> r.offset + 8 <= size
  }

  lemma {:induction false} RelaOpsFit(f: File, imports: seq<Import>, y: Symbols, i: nat, n: nat, size: nat)
    requires i < |f.shdrs| && forall k :: 0 <= k < n ==> RelaFits(f, i, k, size)
    ensures InImage(RelaOps(f, imports, y, i, n), size)
  {
    hide RelaAt, SymbolValue;
    if n > 0 {
      RelaOpsFit(f, imports, y, i, n - 1, size);
      assert RelaFits(f, i, n - 1, size);
    }
  }

  lemma {:induction false} OpsFit(f: File, imports: seq<Import>, y: Symbols, n: nat, size: nat)
    requires f.shstrndx < |f.shdrs| && n <= |f.shdrs| && WritesFit(f, size)
    ensures InImage(AllOps(f, imports, y, n), size)
  {
    hide RelaAt, GotOps, RelaOps, GotCount, RelaCount;
    if n > 0 {
      OpsFit(f, imports, y, n - 1, size);
      assert SectionFits(f, n - 1, size);
      GotFits(f.shdrs[n - 1], GotCount(f, n - 1), size);
      RelaOpsFit(f, imports, y, n - 1, RelaCount(f, n - 1), size);
    }
  }

  /** Every slot the relocation loops touch is 8-byte aligned. */
  ghost predicate FileAligned(f: File)
    requires f.shstrndx < |f.shdrs|
  {
    forall i :: 0 <= i < |f.shdrs| ==> SectionAligned(f, i)
  }

  ghost predicate SectionAligned(f: File, i: nat)
    requires f.shstrndx < |f.shdrs| && i < |f.shdrs|
  {
    && (GotCount(f, i) > 0 ==> f.shdrs[i].addr % 8 == 0)
    && forall k :: 0 <= k < RelaCount(f, i) ==> RelaAligned(f, i, k)
  }

  predicate RelaAligned(f: File, i: nat, k: nat)
    requires i < |f.shdrs|
  {
    var r := RelaAt(f, f.shdrs[i], k);
    Handled(r.info) ==> r.offset % 8 == 0
  }

  lemma {:induction false} GotAligned(sh: Shdr, n: nat)
    requires n > 0 ==> sh.addr % 8 == 0
    ensures SlotsAligned(GotOps(sh, n))
  {
    if n > 0 {
      GotAligned(sh, n - 1);
    }
  }

  lemma {:induction false} RelaOpsAligned(f: File, imports: seq<Import>, y: Symbols, i: nat, n: nat)
    requires i < |f.shdrs| && forall k :: 0 <= k < n ==> RelaAligned(f, i, k)
    ensures SlotsAligned(RelaOps(f, imports, y, i, n))
  {
    hide RelaAt, SymbolValue;
    if n > 0 {
      RelaOpsAligned(f, imports, y, i, n - 1);
      assert RelaAligned(f, i, n - 1);
    }
  }

  lemma {:induction false} OpsAligned(f: File, imports: seq<Import>, y: Symbols, n: nat)
    requires f.shstrndx < |f.shdrs| && n <= |f.shdrs| && FileAligned(f)
    ensures SlotsAligned(AllOps(f, imports, y, n))
  {
    hide RelaAt, GotOps, RelaOps, GotCount, RelaCount;
    if n > 0 {
      OpsAligned(f, imports, y, n - 1);
      assert SectionAligned(f, n - 1);
      GotAligned(f.shdrs[n - 1], GotCount(f, n - 1));
      RelaOpsAligned(f, imports, y, n - 1, RelaCount(f, n - 1));
    }
  }

  // --------------------------------------------------------------------- code

  /** The first import with the wanted name decides. */
  lemma {:induction false} ResolveIsFirst(imports: seq<Import>, name: bytes, i: nat, j: nat)
    requires i <= j < |imports| && imports[j].name == name && forall l :: i <= l < j ==> imports[l].name != name
    ensures ResolveFrom(imports, name, i) == imports[j].address
    decreases j - i
  {
    if i < j {
      ResolveIsFirst(imports, name, i + 1, j);
    }
  }

  /** Without one the address is null. */
  lemma {:induction false} ResolveMissing(imports: seq<Import>, name: bytes, i: nat)
    requires i <= |imports| && forall j :: i <= j < |imports| ==> imports[j].name != name
    ensures ResolveFrom(imports, name, i) == 0
    decreases |imports| - i
  {
    if i < |imports| {
      ResolveMissing(imports, name, i + 1);
    }
  }

  class Mapper {
    const file: File
    const imports: seq<Import>

    constructor (file: File, imports: seq<Import>)
      ensures this.file == file && this.imports == imports
    {
      this.file, this.imports := file, imports;
    }

    /** `resolve_import`. */
    method ResolveImport(name: bytes) returns (address: u64)
      ensures address == ResolveFrom(imports, name, 0)
    {
      var i := 0;
      while i < |imports|
        invariant i <= |imports| && ResolveFrom(imports, name, 0) == ResolveFrom(imports, name, i)
      {
        if imports[i].name == name { return imports[i].address; }
        i := i + 1;
      }
      return 0;
    }

    /** The search loops for the dynamic string and symbol tables. */
    method FindTables() returns (dynstr: Option<Shdr>, dynsym: Option<Shdr>)
      requires file.shstrndx < |file.shdrs|
      ensures dynstr == FindDynstr(file, 0) && dynsym == FindDynsym(file, 0)
    {
      dynstr, dynsym := None, None;
      var i := 0;
      while i < |file.shdrs|
        invariant i <= |file.shdrs| && dynstr == None && FindDynstr(file, 0) == FindDynstr(file, i)
      {
        if IsDynstr(file, file.shdrs[i]) {
          dynstr := Some(file.shdrs[i]);
          break;
        }
        i := i + 1;
      }
      i := 0;
      while i < |file.shdrs|
        invariant i <= |file.shdrs| && dynsym == None && FindDynsym(file, 0) == FindDynsym(file, i)
      {
        if file.shdrs[i].typ == SHT_DYNSYM {
          dynsym := Some(file.shdrs[i]);
          break;
        }
        i := i + 1;
      }
    }

    /** One 8-byte store into the image. */
    method WriteSlot(image: array<u8>, slot: nat, v: u64)
      requires slot + 8 <= image.Length
      modifies image
      ensures image[..] == Store64(old(image[..]), slot, v)
    {
      hide LeValue;
      var b := LeBytes(v, 8);
      forall k | 0 <= k < 8 { image[slot + k] := b[k]; }
      assert image[..] == Store64(old(image[..]), slot, v);
    }

    method ReadSlot(image: array<u8>, slot: nat) returns (v: u64)
      requires slot + 8 <= image.Length
      ensures v == Load64(image[..], slot)
    {
      v := Load64(image[..], slot);
    }

    /** One write of the relocation loops, appended to those already done. */
    method Perform(image: array<u8>, base: u64, op: Op, ghost before: bytes, ghost done: seq<Op>)
      requires image.Length == |before| && InImage(done, |before|) && op.slot + 8 <= |before|
      requires image[..] == Apply(done, before, base)
      modifies image
      ensures InImage(done + [op], |before|) && image[..] == Apply(done + [op], before, base)
    {
      hide Load64, Store64, Apply;
      ApplyAppend(done, op, before, base);
      match op {
        case AddBase(s) =>
          var v := ReadSlot(image, s);
          WriteSlot(image, s, (v + base) % U64_SIZE);
        case Assign(s, v) =>
          WriteSlot(image, s, v);
      }
    }

    /** The GOT loop. */
    method RelocateGot(image: array<u8>, base: u64, i: nat, ghost before: bytes, ghost done: seq<Op>)
      requires file.shstrndx < |file.shdrs| && i < |file.shdrs| && SectionFits(file, i, image.Length)
      requires image.Length == |before| && InImage(done, |before|) && image[..] == Apply(done, before, base)
      modifies image
      ensures InImage(done + GotOps(file.shdrs[i], GotCount(file, i)), |before|)
      ensures image[..] == Apply(done + GotOps(file.shdrs[i], GotCount(file, i)), before, base)
    {
      hide Apply, Load64, Store64, RelaFits;
      var section := file.shdrs[i];
      ghost var ops := done;
      assert done + [] == done;
      if IsGot(file, section) {
        var size := section.size / 8;
        var k := 0;
        while k < size
          invariant k <= size && ops == done + GotOps(section, k)
          invariant image.Length == |before| && InImage(ops, |before|) && image[..] == Apply(ops, before, base)
        {
          Perform(image, base, AddBase(section.addr + k * 8), before, ops);
          ops := ops + [AddBase(section.addr + k * 8)];
          k := k + 1;
          assert ops == done + GotOps(section, k);
        }
      }
    }

    /** The RELA loop.  Each round reads both symbol tables through the pointers found before, so
        they must not be null as soon as there is a round. */
    method RelocateRela(image: array<u8>, base: u64, i: nat, dynstr: Option<Shdr>, dynsym: Option<Shdr>,
                        ghost y: Symbols, ghost before: bytes, ghost done: seq<Op>)
      requires file.shstrndx < |file.shdrs| && i < |file.shdrs| && SectionFits(file, i, image.Length)
      requires RelaCount(file, i) > 0 ==> dynstr == Some(y.dynstr) && dynsym == Some(y.dynsym)
      requires image.Length == |before| && InImage(done, |before|) && image[..] == Apply(done, before, base)
      modifies image
      ensures InImage(done + RelaOps(file, imports, y, i, RelaCount(file, i)), |before|)
      ensures image[..] == Apply(done + RelaOps(file, imports, y, i, RelaCount(file, i)), before, base)
    {
      hide Apply, Load64, Store64, Read64, Read32, CString;
      var section := file.shdrs[i];
      ghost var ops := done;
      assert done + [] == done;
      if section.typ == SHT_RELA {
        var count := section.size / RELA_SIZE;
        var k := 0;
        while k < count
          invariant k <= count && ops == done + RelaOps(file, imports, y, i, k)
          invariant image.Length == |before| && InImage(ops, |before|) && image[..] == Apply(ops, before, base)
        {
          assert RelaFits(file, i, k, image.Length);
          var r := RelaAt(file, section, k);
          var typ := r.info % U32_SIZE;
          var sym := SymAt(file, dynsym.value, r.info / U32_SIZE);
          var name := dynstr.value.offset + sym.name;
          if typ == R_RELATIVE {
            Perform(image, base, AddBase(r.offset), before, ops);
            ops := ops + [AddBase(r.offset)];
          } else if typ == R_JUMP_SLOT || typ == R_GLOB_DAT {
            var v;
            if sym.value == 0 {
              v := ResolveImport(CString(file.contents, name));
            } else {
              v := (sym.value + RelaAt(file, section, i).addend) % U64_SIZE;
            }
            Perform(image, base, Assign(r.offset, v), before, ops);
            ops := ops + [Assign(r.offset, v)];
          }
          k := k + 1;
          assert ops == done + RelaOps(file, imports, y, i, k);
        }
      }
    }

    /** `map_to`: the segments, then all relocation writes in section order. */
    method MapTo(image: array<u8>, base: u64)
      requires Readable(file.contents, file.phdrs) && FitsIn(file.phdrs, image.Length)
      requires file.shstrndx < |file.shdrs| && HasSymbols(file) && WritesFit(file, image.Length)
      modifies image
      ensures var segments := Segments(file.contents, file.phdrs, |file.phdrs|, old(image[..]));
              var ops := AllOps(file, imports, SymbolsOf(file), |file.shdrs|);
              InImage(ops, |segments|) && image[..] == Apply(ops, segments, base)
    {
      hide Apply, Load64, Store64, Segments, GotOps, RelaOps, GotCount, RelaCount, RelaFits, FindDynstr, FindDynsym;
      MapSegments(file.contents, file.phdrs, image);
      ghost var segments := image[..];
      var dynstr, dynsym := FindTables();
      ghost var y := SymbolsOf(file);
      ghost var ops := [];
      ApplyNothing(segments, base);
      var i := 0;
      while i < |file.shdrs|
        invariant i <= |file.shdrs| && ops == AllOps(file, imports, y, i)
        invariant image.Length == |segments| && InImage(ops, |segments|) && image[..] == Apply(ops, segments, base)
      {
        assert SectionFits(file, i, image.Length);
        RelocateGot(image, base, i, segments, ops);
        ops := ops + GotOps(file.shdrs[i], GotCount(file, i));
        RelocateRela(image, base, i, dynstr, dynsym, y, segments, ops);
        ops := ops + RelaOps(file, imports, y, i, RelaCount(file, i));
        i := i + 1;
        assert ops == AllOps(file, imports, y, i);
      }
    }
  }

  lemma ApplyNothing(image: bytes, base: u64)
    ensures InImage([], |image|) && Apply([], image, base) == image
  {
  }

  /** Two loads of one file into equal buffers at different bases: each aligned slot moves by its
      factor times the distance, and a byte no relocation touches is the same in both. */
  lemma LoadsDiffer(f: File, imports: seq<Import>, before: bytes, b1: u64, b2: u64)
    requires Readable(f.contents, f.phdrs) && f.shstrndx < |f.shdrs| && WritesFit(f, |before|) && FileAligned(f)
    ensures var ops := AllOps(f, imports, SymbolsOf(f), |f.shdrs|);
            InImage(ops, |before|)
    ensures var ops := AllOps(f, imports, SymbolsOf(f), |f.shdrs|);
            var segments := Segments(f.contents, f.phdrs, |f.phdrs|, before);
            forall s :: 0 <= s && s % 8 == 0 && s + 8 <= |before| ==>
              (Load64(Apply(ops, segments, b2), s) - Load64(Apply(ops, segments, b1), s)) % U64_SIZE
              == (Factor(ops, s) * (b2 - b1)) % U64_SIZE
    ensures var ops := AllOps(f, imports, SymbolsOf(f), |f.shdrs|);
            var segments := Segments(f.contents, f.phdrs, |f.phdrs|, before);
            forall x :: 0 <= x < |before| && (forall i :: 0 <= i < |ops| ==> !(ops[i].slot <= x < ops[i].slot + 8)) ==>
              Apply(ops, segments, b2)[x] == Apply(ops, segments, b1)[x]
  {
    hide Apply, Load64, Segments, AllOps, Factor;
    var ops := AllOps(f, imports, SymbolsOf(f), |f.shdrs|);
    var segments := Segments(f.contents, f.phdrs, |f.phdrs|, before);
    OpsFit(f, imports, SymbolsOf(f), |f.shdrs|, |before|);
    OpsAligned(f, imports, SymbolsOf(f), |f.shdrs|);
    forall s | 0 <= s && s % 8 == 0 && s + 8 <= |before|
      ensures (Load64(Apply(ops, segments, b2), s) - Load64(Apply(ops, segments, b1), s)) % U64_SIZE
           == (Factor(ops, s) * (b2 - b1)) % U64_SIZE
    {
      TwoLoads(ops, segments, b1, b2, s);
    }
    forall x | 0 <= x < |before| && (forall i :: 0 <= i < |ops| ==> !(ops[i].slot <= x < ops[i].slot + 8))
      ensures Apply(ops, segments, b2)[x] == Apply(ops, segments, b1)[x]
    {
      RelocationFrame(ops, segments, b1, x);
      RelocationFrame(ops, segments, b2, x);
    }
  }
}

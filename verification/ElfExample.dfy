/** A file on which the addend of the wrong relocation is taken: one symbol relocation and one RELATIVE
    relocation of the same slot, in the section with number 1. */
module ElfExample {
  import opened Wrappers
  import opened Bits
  import opened Bytes
  import opened ElfSegments
  import opened ElfReloc
  import opened ElfMapper
  import opened ElfOrigins
  import opened ElfSymbols

  /** One symbol with value 0x10 at offset 64; at offset 88 a GLOB_DAT relocation of slot 0 with addend 0
      and a RELATIVE relocation of slot 0 with addend 8; at offset 136 the name of the string table. */
  function Contents(): (b: bytes)
    ensures |b| == 144
  {
    seq<u8>(144, x requires 0 <= x < 144 => ContentsByte(x))
  }

  function ContentsByte(x: nat): u8
  {
    if x == 72 then 0x10
    else if x == 96 then 6
    else if x == 120 then 8
    else if x == 128 then 8
    else if 136 <= x < 143 then DotDynstr()[x - 136]
    else 0
  }

  const DYNSYM: Shdr := Shdr(7, SHT_DYNSYM, 0, 64, 24)
  const RELOCS: Shdr := Shdr(7, SHT_RELA, 0, 88, 48)
  const DYNSTR: Shdr := Shdr(0, SHT_STRTAB, 0, 136, 8)

  function Example(): File { File(Contents(), [], [DYNSYM, RELOCS, DYNSTR], 2) }

  lemma {:induction false} ZerosAreZero(b: bytes)
    requires forall k :: 0 <= k < |b| ==> b[k] == 0
    ensures LeValue(b) == 0
  {
    if b != [] {
      ZerosAreZero(b[1..]);
    }
  }

  /** A word with only its lowest byte set. */
  lemma SmallWord(off: nat)
    requires off + 8 <= 144 && forall x :: off + 1 <= x < off + 8 ==> ContentsByte(x) == 0
    ensures Read64(Contents(), off) == ContentsByte(off) as int
  {
    hide ContentsByte;
    var b := Peek(Contents(), off, 8);
    assert forall k :: 0 <= k < 8 ==> b[k] == ContentsByte(off + k);
    assert forall k :: 0 <= k < 7 ==> b[1..][k] == ContentsByte(off + 1 + k);
    ZerosAreZero(b[1..]);
    assert b[0..8] == b;
  }

  /** The words of the two relocations, and the value of symbol 0. */
  lemma Words()
    ensures var f := Example();
            && SlotOf(f, 1, 0) == 0 && InfoOf(f, 1, 0) == 6 && AddendOf(f, 1, 0) == 0
            && SlotOf(f, 1, 1) == 0 && InfoOf(f, 1, 1) == 8 && AddendOf(f, 1, 1) == 8
            && Read64(f.contents, DYNSYM.offset + 8) == 0x10
  {
    hide Read64, Contents;
    SmallWord(88);
    SmallWord(96);
    SmallWord(104);
    SmallWord(112);
    SmallWord(120);
    SmallWord(128);
    SmallWord(72);
  }

  /** The string table's name is ".dynstr"; the other sections have the empty name. */
  lemma Names()
    ensures SectionName(Example(), DYNSTR) == DotDynstr()
    ensures SectionName(Example(), DYNSYM) == [] && SectionName(Example(), RELOCS) == []
  {
    var b := Contents();
    assert CString(b, 143) == [];
    assert CString(b, 142) == [0x72];
    assert CString(b, 141) == [0x74] + CString(b, 142);
    assert CString(b, 140) == [0x73] + CString(b, 141);
    assert CString(b, 139) == [0x6E] + CString(b, 140);
    assert CString(b, 138) == [0x79] + CString(b, 139);
    assert CString(b, 137) == [0x64] + CString(b, 138);
    assert CString(b, 136) == [0x2E] + CString(b, 137);
  }

  lemma Tables()
    ensures SymbolsOf(Example()) == Symbols(DYNSTR, DYNSYM)
    ensures FindDynstr(Example(), 0).Some? && FindDynsym(Example(), 0).Some?
    ensures forall i :: 0 <= i < 3 ==> GotCount(Example(), i) == 0 && RelaCount(Example(), i) == if i == 1 then 2 else 0
  {
    hide SectionName, Contents;
    Names();
    DynstrIsFirst(Example(), 0, 2);
    DynsymIsFirst(Example(), 0, 0);
  }

  /** The example is a file the loader accepts, for any buffer that holds an ELF header. */
  lemma ExampleLoads(before: bytes)
    requires |before| >= EHDR_SIZE
    ensures Loadable(Example(), before)
  {
    hide RelaAt, SectionName, Contents, GotCount, RelaCount, FindDynstr, FindDynsym, SlotOf, InfoOf, AddendOf;
    var f := Example();
    Tables();
    Words();
    forall i | 0 <= i < 3
      ensures SectionFits(f, i, |before|) && SectionAligned(f, i)
    {
      forall k | 0 <= k < RelaCount(f, i)
        ensures RelaFits(f, i, k, |before|) && RelaAligned(f, i, k)
      {
        assert k == 0 || k == 1;
        RelaIs(f, 1, k);
      }
    }
  }

  lemma Counts()
    ensures var f := Example(); forall i :: 0 <= i < 3 ==> GotWords(f, i) == 0 && Relocations(f, i) == if i == 1 then 2 else 0
  {
    hide SectionName, Contents, GotCount, RelaCount, GotWords, Relocations;
    Tables();
    CountsAre(Example(), 0);
    CountsAre(Example(), 1);
    CountsAre(Example(), 2);
  }

  /** The only addition to slot 0 is that of relocation 1. */
  lemma ExampleAdders()
    ensures Adders(Example(), 0) == {Relocation(1, 1)}
  {
    hide Contents, SlotOf, InfoOf, GotWords, Relocations, GotSlot;
    var f := Example();
    Counts();
    Words();
    assert IsRelative(f, 1, 1) && !IsRelative(f, 1, 0);
    assert Relocation(1, 1) in RelativeAdders(f, 0);
    forall o | o in Adders(f, 0)
      ensures o == Relocation(1, 1)
    {
      assert o !in GotAdders(f, 0);
    }
  }

  /** Relocation 0 has the last word, and the base is added once after it. */
  lemma ExampleOrder()
    ensures LastWord(Example(), 1, 0) && BasesAfter(Example(), 1, 0) == 1
  {
    hide Contents, SlotOf, InfoOf, GotWords, Relocations, Adders;
    var f := Example();
    Counts();
    Words();
    ExampleAdders();
    assert LaterAdders(f, 1, 0) == {Relocation(1, 1)};
  }

  /** The base is added exactly once, and still the slot is off by 8 at every base: the relocation's own
      addend is 0, the one used is that of relocation 1. */
  lemma WrongAddendLoaded(imports: seq<Import>, before: bytes, base: u64)
    requires |before| >= EHDR_SIZE
    ensures var f := Example();
            && Loadable(f, before) && LastWord(f, 1, 0) && SlotOf(f, 1, 0) == 0 && BasesAfter(f, 1, 0) == 1
            && SymbolValueOf(f, SymbolsOf(f), 1, 0) == 0x10 && AddendOf(f, 1, 0) == 0
            && Loaded(f, imports, before, base, 0) == (base + 0x18) % U64_SIZE != (base + 0x10 + 0) % U64_SIZE
  {
    hide SlotOf, InfoOf, AddendOf, SectionName, Contents, GotCount, RelaCount, SymbolsOf, LastWord, BasesAfter;
    hide Loaded, Loadable, Affine, Read64, CString, ResolveFrom;
    var f := Example();
    ExampleLoads(before);
    ExampleOrder();
    Tables();
    Words();
    LoadedIs(f, imports, before, base, 1, 0);
    AffineOnce(0x10, 8, base);
  }
}

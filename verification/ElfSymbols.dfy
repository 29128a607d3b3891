/** What relocations are for, and exactly when the loader gets them right: a GOT word and the target of a
    RELATIVE relocation should move by the load base, an imported symbol's slot should hold the address the
    loader exports, a symbol of the image the load base plus its value plus the addend of the relocation
    itself. */
module ElfSymbols {
  import opened Wrappers
  import opened Bits
  import opened Bytes
  import opened ElfSegments
  import opened ElfReloc
  import opened ElfMapper
  import opened ElfOrigins

  /** A file and a buffer the loader can be given, with aligned slots. */
  ghost predicate Loadable(f: File, before: bytes)
  {
    && Readable(f.contents, f.phdrs) && FitsIn(f.phdrs, |before|)
    && f.shstrndx < |f.shdrs| && HasSymbols(f) && WritesFit(f, |before|) && FileAligned(f)
  }

  /** The word the segment loop leaves in a slot. */
  function Mapped(f: File, before: bytes, s: nat): u64
    requires Loadable(f, before) && s + 8 <= |before|
  {
    Load64(Segments(f.contents, f.phdrs, |f.phdrs|, before), s)
  }

  /** The word the loader leaves in a slot. */
  function Loaded(f: File, imports: seq<Import>, before: bytes, base: u64, s: nat): u64
    requires Loadable(f, before) && s + 8 <= |before|
  {
    OpsFit(f, imports, SymbolsOf(f), |f.shdrs|, |before|);
    Load64(Apply(AllOps(f, imports, SymbolsOf(f), |f.shdrs|), Segments(f.contents, f.phdrs, |f.phdrs|, before), base), s)
  }

  // -------------------------------------------------------- GOT and RELATIVE slots

  /** No symbol relocation targets the slot. */
  ghost predicate NoSymbolAt(f: File, s: nat)
  {
    forall i, k :: 0 <= i < |f.shdrs| && 0 <= k < Relocations(f, i) && IsSymbolic(f, i, k) ==> SlotOf(f, i, k) != s
  }

  lemma OnlyAdditions(f: File, imports: seq<Import>, s: nat)
    requires f.shstrndx < |f.shdrs| && NoSymbolAt(f, s)
    ensures var ops := AllOps(f, imports, SymbolsOf(f), |f.shdrs|);
            forall l :: 0 <= l < |ops| && ops[l].slot == s ==> ops[l].AddBase?
  {
    hide AllOps, Origins, StoredBy, SlotOf, GotWords, Relocations, TypeOf, SymbolsOf;
    var y := SymbolsOf(f);
    var os, ops := Origins(f, |f.shdrs|), AllOps(f, imports, y, |f.shdrs|);
    OriginsAre(f, imports, y, |f.shdrs|);
    forall l | 0 <= l < |ops| && ops[l].slot == s
      ensures ops[l].AddBase?
    {
      assert os[l] in os && ops[l] == WriteOf(f, imports, y, os[l]);
    }
  }

  /** A slot that no symbol relocation targets is moved by the base, for every base, exactly when the number
      of GOT words and RELATIVE relocations there is 1 modulo 2^64. */
  lemma PointerSlotExactly(f: File, imports: seq<Import>, before: bytes, s: nat)
    requires Loadable(f, before) && s % 8 == 0 && s + 8 <= |before| && NoSymbolAt(f, s)
    ensures (forall base: u64 :: Loaded(f, imports, before, base, s) == (Mapped(f, before, s) + base) % U64_SIZE)
       <==> (|GotAdders(f, s)| + |RelativeAdders(f, s)|) % U64_SIZE == 1
  {
    hide AllOps, Apply, Load64, Segments, SymbolsOf, WritesFit, FileAligned, HasSymbols, FitsIn, NoSymbolAt;
    hide GotAdders, RelativeAdders;
    var y := SymbolsOf(f);
    var ops := AllOps(f, imports, y, |f.shdrs|);
    OpsFit(f, imports, y, |f.shdrs|, |before|);
    OpsAligned(f, imports, y, |f.shdrs|);
    OnlyAdditions(f, imports, s);
    AddersExactly(f, imports, y, s);
    var segments := Segments(f.contents, f.phdrs, |f.phdrs|, before);
    PointerRelocatedExactly(ops, segments, s);
    if |AddPlaces(ops, s)| % U64_SIZE != 1 {
      var base: u64 :| Load64(Apply(ops, segments, base), s) != (Load64(segments, s) + base) % U64_SIZE;
      assert Loaded(f, imports, before, base, s) != (Mapped(f, before, s) + base) % U64_SIZE;
    } else {
      forall base: u64
        ensures Loaded(f, imports, before, base, s) == (Mapped(f, before, s) + base) % U64_SIZE
      {
        assert Load64(Apply(ops, segments, base), s) == (Load64(segments, s) + base) % U64_SIZE;
      }
    }
  }

  /** In particular a GOT word that nothing else writes. */
  lemma GotWordRelocated(f: File, imports: seq<Import>, before: bytes, base: u64, i: nat, k: nat)
    requires Loadable(f, before) && i < |f.shdrs| && k < GotWords(f, i)
    requires var s := f.shdrs[i].addr + 8 * k;
             NoSymbolAt(f, s) && RelativeAdders(f, s) == {} && forall o :: o in GotAdders(f, s) ==> o == Got(i, k)
    ensures var s := f.shdrs[i].addr + 8 * k;
            s + 8 <= |before| && Loaded(f, imports, before, base, s) == (Mapped(f, before, s) + base) % U64_SIZE
  {
    hide Loaded, Mapped, NoSymbolAt, RelativeAdders, GotWords, GotCount, RelaCount, HasSymbols, FitsIn;
    var s := f.shdrs[i].addr + 8 * k;
    CountsAre(f, i);
    assert SectionFits(f, i, |before|) && SectionAligned(f, i);
    assert GotSlot(f, i, k) == s;
    assert GotAdders(f, s) == {Got(i, k)};
    PointerSlotExactly(f, imports, before, s);
  }

  // ------------------------------------------------------------- symbol relocations

  /** Relocation k of section i is a symbol relocation, and no later symbol relocation has its slot. */
  ghost predicate LastWord(f: File, i: nat, k: nat)
  {
    && i < |f.shdrs| && k < Relocations(f, i) && IsSymbolic(f, i, k)
    && forall i', k' :: 0 <= i' < |f.shdrs| && 0 <= k' < Relocations(f, i') && Before(Relocation(i, k), Relocation(i', k'))
         ==> !(IsSymbolic(f, i', k') && SlotOf(f, i', k') == SlotOf(f, i, k))
  }

  /** The GOT words and RELATIVE relocations at the slot that come after relocation k of section i. */
  ghost function LaterAdders(f: File, i: nat, k: nat): set<Origin>
    requires f.shstrndx < |f.shdrs| && i < |f.shdrs|
  {
    set o | o in Adders(f, SlotOf(f, i, k)) && Before(Relocation(i, k), o)
  }

  /** How often the base is added to the slot after the relocation. */
  ghost function BasesAfter(f: File, i: nat, k: nat): nat
    requires f.shstrndx < |f.shdrs| && i < |f.shdrs|
  {
    |LaterAdders(f, i, k)|
  }

  /** In the sorted origins, coming after is standing after. */
  lemma AfterIs(os: seq<Origin>, p: nat, l: nat)
    requires Sorted(os) && p < |os| && l < |os|
    ensures Before(os[p], os[l]) <==> p < l
  {
    if l < p { assert Before(os[l], os[p]); }
  }

  lemma RelocationPlace(f: File, imports: seq<Import>, i: nat, k: nat) returns (p: nat)
    requires f.shstrndx < |f.shdrs| && LastWord(f, i, k)
    ensures var ops := AllOps(f, imports, SymbolsOf(f), |f.shdrs|);
            var os := Origins(f, |f.shdrs|);
            && p < |ops| == |os| && os[p] == Relocation(i, k)
            && ops[p] == Assign(SlotOf(f, i, k), StoredBy(f, imports, SymbolsOf(f), i, k))
            && forall l :: p < l < |ops| && ops[l].slot == SlotOf(f, i, k) ==> ops[l].AddBase?
  {
    hide AllOps, Origins, StoredBy, SlotOf, GotWords, Relocations, TypeOf, SymbolsOf;
    var y := SymbolsOf(f);
    var os, ops := Origins(f, |f.shdrs|), AllOps(f, imports, y, |f.shdrs|);
    OriginsAre(f, imports, y, |f.shdrs|);
    assert Performed(f, Relocation(i, k));
    p :| 0 <= p < |os| && os[p] == Relocation(i, k);
    forall l | p < l < |ops| && ops[l].slot == SlotOf(f, i, k)
      ensures ops[l].AddBase?
    {
      assert os[l] in os && ops[l] == WriteOf(f, imports, y, os[l]) && Before(os[p], os[l]);
    }
  }

  /** The factor of the slot in the list of writes is the number of later additions in the file. */
  lemma FactorIs(f: File, imports: seq<Import>, i: nat, k: nat)
    requires f.shstrndx < |f.shdrs| && LastWord(f, i, k)
    ensures Factor(AllOps(f, imports, SymbolsOf(f), |f.shdrs|), SlotOf(f, i, k)) == BasesAfter(f, i, k)
  {
    hide AllOps, Origins, StoredBy, SlotOf, GotWords, Relocations, TypeOf, SymbolsOf, Factor, WriteOf, Performed;
    hide GotAdders, RelativeAdders, Adders, Before;
    var y, s := SymbolsOf(f), SlotOf(f, i, k);
    var os, ops := Origins(f, |f.shdrs|), AllOps(f, imports, y, |f.shdrs|);
    OriginsAre(f, imports, y, |f.shdrs|);
    var p := RelocationPlace(f, imports, i, k);
    FactorCounts(ops, s);
    forall o
      ensures o in Adders(f, s) <==> Performed(f, o) && o.section < |f.shdrs| && WriteOf(f, imports, y, o) == AddBase(s)
    {
      AdderIs(f, imports, y, s, o);
      PerformedIn(f, o);
    }
    PlacesOf(os, LaterAdders(f, i, k));
    forall l | 0 <= l < |os|
      ensures l in Places(os, LaterAdders(f, i, k)) <==> Surviving(ops, s, l)
    {
      AfterIs(os, p, l);
      assert os[l] in os;
    }
    assert Places(os, LaterAdders(f, i, k)) == set l | 0 <= l < |ops| && Surviving(ops, s, l);
  }

  lemma RelaIs(f: File, i: nat, k: nat)
    requires i < |f.shdrs|
    ensures RelaAt(f, f.shdrs[i], k) == Rela(SlotOf(f, i, k), InfoOf(f, i, k), AddendOf(f, i, k))
  {
    hide Read64;
  }

  lemma SlotFits(f: File, before: bytes, i: nat, k: nat)
    requires Loadable(f, before) && i < |f.shdrs| && k < Relocations(f, i) && IsSymbolic(f, i, k)
    ensures SlotOf(f, i, k) + 8 <= |before| && SlotOf(f, i, k) % 8 == 0
  {
    hide RelaAt, GotCount, RelaCount, Relocations, SectionName, SlotOf, InfoOf;
    CountsAre(f, i);
    RelaIs(f, i, k);
    assert SectionFits(f, i, |before|) && RelaFits(f, i, k, |before|);
    assert SectionAligned(f, i) && RelaAligned(f, i, k);
  }

  /** The slot of a last-word relocation, for every base: the value it stored plus the base as often as it is
      added later. */
  lemma LoadedIs(f: File, imports: seq<Import>, before: bytes, base: u64, i: nat, k: nat)
    requires Loadable(f, before) && LastWord(f, i, k)
    ensures SlotOf(f, i, k) + 8 <= |before|
    ensures Loaded(f, imports, before, base, SlotOf(f, i, k))
         == Affine(StoredBy(f, imports, SymbolsOf(f), i, k), BasesAfter(f, i, k), base)
  {
    hide StoredBy, SlotOf, AllOps, Apply, Load64, Segments, Factor, Constant, Affine, SymbolsOf, BasesAfter, Origins;
    hide Relocations, TypeOf, WritesFit, FileAligned, HasSymbols, FitsIn;
    var y, s := SymbolsOf(f), SlotOf(f, i, k);
    var ops := AllOps(f, imports, y, |f.shdrs|);
    var segments := Segments(f.contents, f.phdrs, |f.phdrs|, before);
    SlotFits(f, before, i, k);
    OpsFit(f, imports, y, |f.shdrs|, |before|);
    OpsAligned(f, imports, y, |f.shdrs|);
    var p := RelocationPlace(f, imports, i, k);
    ConstantIsLastAssigned(ops, segments, p, s, StoredBy(f, imports, y, i, k));
    FactorIs(f, imports, i, k);
    RelocationIsAffine(ops, segments, base, s);
  }

  /** A symbol of the image is relocated to base + value + its own addend, for every base, exactly when
      the base is added once after it (modulo 2^64) and the relocation whose number is the section's
      happens to have the same addend. */
  lemma SymbolRelocatedExactly(f: File, imports: seq<Import>, before: bytes, i: nat, k: nat)
    requires Loadable(f, before) && LastWord(f, i, k) && SymbolValueOf(f, SymbolsOf(f), i, k) != 0
    ensures SlotOf(f, i, k) + 8 <= |before|
    ensures (forall base: u64 :: Loaded(f, imports, before, base, SlotOf(f, i, k))
                             == (base + SymbolValueOf(f, SymbolsOf(f), i, k) + AddendOf(f, i, k)) % U64_SIZE)
       <==> BasesAfter(f, i, k) % U64_SIZE == 1 && AddendOf(f, i, i) == AddendOf(f, i, k)
  {
    hide SlotOf, AddendOf, SymbolValueOf, Loaded, BasesAfter, Affine, SymbolsOf, CString, Relocations, TypeOf;
    var value, stored, addend := SymbolValueOf(f, SymbolsOf(f), i, k), AddendOf(f, i, i), AddendOf(f, i, k);
    var c, factor, s := (value + stored) % U64_SIZE, BasesAfter(f, i, k), SlotOf(f, i, k);
    LoadedIs(f, imports, before, 0, i, k);
    forall base: u64
      ensures Loaded(f, imports, before, base, s) == Affine(c, factor, base)
    {
      LoadedIs(f, imports, before, base, i, k);
    }
    if factor % U64_SIZE == 1 && stored == addend {
      forall base: u64
        ensures Affine(c, factor, base) == (base + value + addend) % U64_SIZE
      {
        AffineModulo(c, factor, base);
        AffineOnce(value, stored, base);
      }
    } else {
      WrongAtZeroOrOne(value, stored, addend, factor);
      assert Loaded(f, imports, before, 0, s) == Affine(c, factor, 0);
      assert Loaded(f, imports, before, 1, s) == Affine(c, factor, 1);
    }
  }

  lemma AffineOnce(v: u64, a: u64, base: u64)
    ensures Affine((v + a) % U64_SIZE, 1, base) == (base + v + a) % U64_SIZE
  {
  }

  /** A wrong addend shows at base 0, a wrong factor at base 1. */
  lemma WrongAtZeroOrOne(v: u64, stored: u64, addend: u64, k: nat)
    requires !(k % U64_SIZE == 1 && stored == addend)
    ensures var c := (v + stored) % U64_SIZE;
            Affine(c, k, 0) != (0 + v + addend) % U64_SIZE || Affine(c, k, 1) != (1 + v + addend) % U64_SIZE
  {
    var c := (v + stored) % U64_SIZE;
    if stored == addend {
      AffineUnit(c, k, 1);
      AffineOnce(v, stored, 1);
    } else {
      assert c != (v + addend) % U64_SIZE;
    }
  }

  /** An imported symbol's slot holds the resolved address, for every base, exactly when the base is
      not added after it (modulo 2^64). */
  lemma ImportKeptExactly(f: File, imports: seq<Import>, before: bytes, i: nat, k: nat)
    requires Loadable(f, before) && LastWord(f, i, k) && SymbolValueOf(f, SymbolsOf(f), i, k) == 0
    ensures SlotOf(f, i, k) + 8 <= |before|
    ensures var name := CString(f.contents, SymbolsOf(f).dynstr.offset + SymbolNameOf(f, SymbolsOf(f), i, k));
            (forall base: u64 :: Loaded(f, imports, before, base, SlotOf(f, i, k)) == ResolveFrom(imports, name, 0))
            <==> BasesAfter(f, i, k) % U64_SIZE == 0
  {
    hide SlotOf, AddendOf, SymbolValueOf, SymbolNameOf, Loaded, BasesAfter, Affine, SymbolsOf, CString, ResolveFrom;
    hide Relocations, TypeOf;
    var c, factor, s := StoredBy(f, imports, SymbolsOf(f), i, k), BasesAfter(f, i, k), SlotOf(f, i, k);
    LoadedIs(f, imports, before, 1, i, k);
    if factor % U64_SIZE == 0 {
      forall base: u64
        ensures Loaded(f, imports, before, base, s) == c
      {
        LoadedIs(f, imports, before, base, i, k);
        AffineModulo(c, factor, base);
        AffineZero(c, base);
      }
    } else {
      AffineUnit(c, factor, 0);
      AffineZero(c, 1);
      assert Loaded(f, imports, before, 1, s) != c;
    }
  }
}

/** Which writes the relocation loops of freestanding/elf_mapper.cc perform, and in which order, read off the
    file: the layouts are those of freestanding/elf.h, with the offsets and numbers written out. */
module ElfOrigins {
  import opened Wrappers
  import opened Bits
  import opened Bytes
  import opened ElfSegments
  import opened ElfReloc
  import opened ElfMapper

  /** Where a write comes from: a word of a GOT section, or an entry of a relocation section. */
  datatype Origin = Got(section: nat, index: nat) | Relocation(section: nat, index: nat)

  /** Section i is named ".got". */
  predicate GotSection(f: File, i: nat)
    requires f.shstrndx < |f.shdrs| && i < |f.shdrs|
  {
    CString(f.contents, f.shdrs[f.shstrndx].offset + f.shdrs[i].name) == [0x2E, 0x67, 0x6F, 0x74]
  }

  function GotWords(f: File, i: nat): nat
    requires f.shstrndx < |f.shdrs| && i < |f.shdrs|
  {
    if GotSection(f, i) then f.shdrs[i].size / 8 else 0
  }

  function Relocations(f: File, i: nat): nat
    requires i < |f.shdrs|
  {
    if f.shdrs[i].typ == 4 then f.shdrs[i].size / 24 else 0
  }

  /** The three words of relocation k of section i. */
  function SlotOf(f: File, i: nat, k: nat): u64
    requires i < |f.shdrs|
  {
    Read64(f.contents, f.shdrs[i].offset + 24 * k)
  }

  function InfoOf(f: File, i: nat, k: nat): u64
    requires i < |f.shdrs|
  {
    Read64(f.contents, f.shdrs[i].offset + 24 * k + 8)
  }

  function AddendOf(f: File, i: nat, k: nat): u64
    requires i < |f.shdrs|
  {
    Read64(f.contents, f.shdrs[i].offset + 24 * k + 16)
  }

  /** R_X86_64_RELATIVE is 8; R_X86_64_GLOB_DAT is 6 and R_X86_64_JUMP_SLOT 7. */
  function TypeOf(f: File, i: nat, k: nat): nat
    requires i < |f.shdrs|
  {
    InfoOf(f, i, k) % 0x1_0000_0000
  }

  predicate IsRelative(f: File, i: nat, k: nat)
    requires i < |f.shdrs|
  {
    TypeOf(f, i, k) == 8
  }

  predicate IsSymbolic(f: File, i: nat, k: nat)
    requires i < |f.shdrs|
  {
    TypeOf(f, i, k) == 6 || TypeOf(f, i, k) == 7
  }

  /** Name offset and value of the symbol of relocation k: a symbol has 24 bytes, its name is the first word
      of four, its value the second word of eight. */
  function SymbolNameOf(f: File, y: Symbols, i: nat, k: nat): nat
    requires i < |f.shdrs|
  {
    Read32(f.contents, y.dynsym.offset + 24 * (InfoOf(f, i, k) / 0x1_0000_0000))
  }

  function SymbolValueOf(f: File, y: Symbols, i: nat, k: nat): u64
    requires i < |f.shdrs|
  {
    Read64(f.contents, y.dynsym.offset + 24 * (InfoOf(f, i, k) / 0x1_0000_0000) + 8)
  }

  /** What a symbol relocation stores: the import's address if the symbol has no value, else the value and
      the addend of the relocation whose number is the section's. */
  function StoredBy(f: File, imports: seq<Import>, y: Symbols, i: nat, k: nat): u64
    requires i < |f.shdrs|
  {
    if SymbolValueOf(f, y, i, k) == 0
    then ResolveFrom(imports, CString(f.contents, y.dynstr.offset + SymbolNameOf(f, y, i, k)), 0)
    else (SymbolValueOf(f, y, i, k) + AddendOf(f, i, i)) % 0x1_0000_0000_0000_0000
  }

  /** The file makes the loops perform a write for this origin. */
  predicate Performed(f: File, o: Origin)
    requires f.shstrndx < |f.shdrs|
  {
    && o.section < |f.shdrs|
    && match o
       case Got(i, k) => k < GotWords(f, i)
       case Relocation(i, k) => k < Relocations(f, i) && (IsRelative(f, i, k) || IsSymbolic(f, i, k))
  }

  function WriteOf(f: File, imports: seq<Import>, y: Symbols, o: Origin): Op
    requires o.section < |f.shdrs|
  {
    match o
    case Got(i, k) => AddBase(f.shdrs[i].addr + 8 * k)
    case Relocation(i, k) =>
      if IsRelative(f, i, k) then AddBase(SlotOf(f, i, k)) else Assign(SlotOf(f, i, k), StoredBy(f, imports, y, i, k))
  }

  /** The order of the loops: by section, in a section the GOT words first, then by number. */
  predicate Before(o: Origin, o': Origin)
  {
    || o.section < o'.section
    || (o.section == o'.section && o.Got? && o'.Relocation?)
    || (o.section == o'.section && o.Got? == o'.Got? && o.index < o'.index)
  }

  // ------------------------------------------------------- the origins in order

  function GotOrigins(i: nat, n: nat): seq<Origin>
  {
    if n == 0 then [] else GotOrigins(i, n - 1) + [Got(i, n - 1)]
  }

  function RelocationOrigins(f: File, i: nat, n: nat): seq<Origin>
    requires i < |f.shdrs|
  {
    if n == 0 then []
    else if IsRelative(f, i, n - 1) || IsSymbolic(f, i, n - 1) then RelocationOrigins(f, i, n - 1) + [Relocation(i, n - 1)]
    else RelocationOrigins(f, i, n - 1)
  }

  function SectionOrigins(f: File, i: nat): seq<Origin>
    requires f.shstrndx < |f.shdrs| && i < |f.shdrs|
  {
    GotOrigins(i, GotWords(f, i)) + RelocationOrigins(f, i, Relocations(f, i))
  }

  function Origins(f: File, n: nat): seq<Origin>
    requires f.shstrndx < |f.shdrs| && n <= |f.shdrs|
  {
    if n == 0 then [] else Origins(f, n - 1) + SectionOrigins(f, n - 1)
  }

  ghost predicate Sorted(os: seq<Origin>) { forall l, l' :: 0 <= l < l' < |os| ==> Before(os[l], os[l']) }

  /** The writes of these origins, in this order. */
  ghost predicate WritesAre(f: File, imports: seq<Import>, y: Symbols, os: seq<Origin>, ops: seq<Op>)
  {
    |os| == |ops| && forall l :: 0 <= l < |os| ==> os[l].section < |f.shdrs| && ops[l] == WriteOf(f, imports, y, os[l])
  }

  lemma WritesAppend(f: File, imports: seq<Import>, y: Symbols, os: seq<Origin>, ops: seq<Op>, os': seq<Origin>, ops': seq<Op>)
    requires WritesAre(f, imports, y, os, ops) && WritesAre(f, imports, y, os', ops')
    ensures WritesAre(f, imports, y, os + os', ops + ops')
  {
    hide WriteOf;
  }

  lemma {:induction false} GotOriginsAre(f: File, imports: seq<Import>, y: Symbols, i: nat, n: nat)
    requires i < |f.shdrs|
    ensures WritesAre(f, imports, y, GotOrigins(i, n), GotOps(f.shdrs[i], n))
    ensures forall o :: o in GotOrigins(i, n) <==> o.Got? && o.section == i && o.index < n
    ensures Sorted(GotOrigins(i, n))
  {
    if n > 0 {
      GotOriginsAre(f, imports, y, i, n - 1);
    }
  }

  /** The layout of relocations and symbols. */
  lemma RelocationIs(f: File, imports: seq<Import>, y: Symbols, i: nat, k: nat)
    requires i < |f.shdrs|
    ensures RelaOp(f, imports, y, i, k)
         == if IsRelative(f, i, k) || IsSymbolic(f, i, k) then [WriteOf(f, imports, y, Relocation(i, k))] else []
  {
    hide Read64, Read32, CString, ResolveFrom;
  }

  lemma {:induction false} RelocationOriginsAre(f: File, imports: seq<Import>, y: Symbols, i: nat, n: nat)
    requires i < |f.shdrs|
    ensures WritesAre(f, imports, y, RelocationOrigins(f, i, n), RelaOps(f, imports, y, i, n))
    ensures forall o :: o in RelocationOrigins(f, i, n) <==>
              o.Relocation? && o.section == i && o.index < n && (IsRelative(f, i, o.index) || IsSymbolic(f, i, o.index))
    ensures Sorted(RelocationOrigins(f, i, n))
  {
    hide RelaOp, WriteOf, IsRelative, IsSymbolic;
    if n > 0 {
      RelocationOriginsAre(f, imports, y, i, n - 1);
      RelocationIs(f, imports, y, i, n - 1);
    }
  }

  lemma CountsAre(f: File, i: nat)
    requires f.shstrndx < |f.shdrs| && i < |f.shdrs|
    ensures GotCount(f, i) == GotWords(f, i) && RelaCount(f, i) == Relocations(f, i)
  {
    hide CString;
  }

  lemma SectionOriginsAre(f: File, imports: seq<Import>, y: Symbols, i: nat)
    requires f.shstrndx < |f.shdrs| && i < |f.shdrs|
    ensures WritesAre(f, imports, y, SectionOrigins(f, i), SectionOps(f, imports, y, i))
    ensures forall o :: o in SectionOrigins(f, i) <==> o.section == i && Performed(f, o)
    ensures Sorted(SectionOrigins(f, i))
  {
    hide GotOps, RelaOps, GotOrigins, RelocationOrigins, GotWords, Relocations, GotCount, RelaCount, WritesAre;
    hide IsRelative, IsSymbolic;
    CountsAre(f, i);
    GotOriginsAre(f, imports, y, i, GotWords(f, i));
    RelocationOriginsAre(f, imports, y, i, Relocations(f, i));
    WritesAppend(f, imports, y, GotOrigins(i, GotWords(f, i)), GotOps(f.shdrs[i], GotWords(f, i)),
                 RelocationOrigins(f, i, Relocations(f, i)), RelaOps(f, imports, y, i, Relocations(f, i)));
  }

  lemma {:induction false} OriginsAre(f: File, imports: seq<Import>, y: Symbols, n: nat)
    requires f.shstrndx < |f.shdrs| && n <= |f.shdrs|
    ensures WritesAre(f, imports, y, Origins(f, n), AllOps(f, imports, y, n))
    ensures forall o :: o in Origins(f, n) <==> o.section < n && Performed(f, o)
    ensures Sorted(Origins(f, n))
  {
    hide SectionOps, SectionOrigins, WritesAre, Performed;
    if n == 0 {
      NoWrites(f, imports, y);
    } else {
      OriginsAre(f, imports, y, n - 1);
      SectionOriginsAre(f, imports, y, n - 1);
      WritesAppend(f, imports, y, Origins(f, n - 1), AllOps(f, imports, y, n - 1),
                   SectionOrigins(f, n - 1), SectionOps(f, imports, y, n - 1));
    }
  }

  lemma NoWrites(f: File, imports: seq<Import>, y: Symbols)
    ensures WritesAre(f, imports, y, [], [])
  {
  }

  // ---------------------------------------------------- which slots get the base

  function GotSlot(f: File, i: nat, k: nat): nat
    requires i < |f.shdrs|
  {
    f.shdrs[i].addr + 8 * k
  }

  /** The GOT words at slot s, one for each section and number. */
  ghost function GotAdders(f: File, s: nat): set<Origin>
    requires f.shstrndx < |f.shdrs|
  {
    set i, k | 0 <= i < |f.shdrs| && 0 <= k < GotWords(f, i) && GotSlot(f, i, k) == s :: Got(i, k)
  }

  /** The RELATIVE relocations of slot s. */
  ghost function RelativeAdders(f: File, s: nat): set<Origin>
  {
    set i, k | 0 <= i < |f.shdrs| && 0 <= k < Relocations(f, i) && IsRelative(f, i, k) && SlotOf(f, i, k) == s :: Relocation(i, k)
  }

  ghost function Adders(f: File, s: nat): set<Origin>
    requires f.shstrndx < |f.shdrs|
  {
    GotAdders(f, s) + RelativeAdders(f, s)
  }

  /** The adders of a slot are the performed origins whose write adds the base to it. */
  lemma AdderIs(f: File, imports: seq<Import>, y: Symbols, s: nat, o: Origin)
    requires f.shstrndx < |f.shdrs|
    ensures o in Adders(f, s) <==> Performed(f, o) && WriteOf(f, imports, y, o) == AddBase(s)
  {
    hide GotWords, Relocations, TypeOf, SlotOf, StoredBy;
    match o
    case Got(i, k) =>
      if Performed(f, o) && GotSlot(f, i, k) == s { assert Got(i, k) in GotAdders(f, s); }
    case Relocation(i, k) =>
      if Performed(f, o) && IsRelative(f, i, k) && SlotOf(f, i, k) == s { assert Relocation(i, k) in RelativeAdders(f, s); }
  }

  /** The places in a sequence where a member of the set stands. */
  ghost function Places(os: seq<Origin>, t: set<Origin>): set<int>
  {
    set l | 0 <= l < |os| && os[l] in t
  }

  /** In a sorted sequence, the members of a set stand at as many places as it has elements. */
  lemma {:induction false} PlacesOf(os: seq<Origin>, t: set<Origin>)
    requires Sorted(os) && forall o :: o in t ==> o in os
    ensures |Places(os, t)| == |t|
  {
    hide Before;
    if t == {} {
      assert Places(os, t) == {};
    } else {
      var o :| o in t;
      var p :| 0 <= p < |os| && os[p] == o;
      PlacesOf(os, t - {o});
      OnePlace(os, t, p);
    }
  }

  lemma OnePlace(os: seq<Origin>, t: set<Origin>, p: nat)
    requires Sorted(os) && p < |os| && os[p] in t
    ensures Places(os, t) == Places(os, t - {os[p]}) + {p} && p !in Places(os, t - {os[p]})
  {
    forall l | 0 <= l < |os| && l != p
      ensures os[l] != os[p]
    {
      if l < p { assert Before(os[l], os[p]); } else { assert Before(os[p], os[l]); }
    }
  }

  /** How often the whole file adds the base to a slot: once for every GOT word and every RELATIVE relocation
      there. */
  lemma AddersExactly(f: File, imports: seq<Import>, y: Symbols, s: nat)
    requires f.shstrndx < |f.shdrs|
    ensures |AddPlaces(AllOps(f, imports, y, |f.shdrs|), s)| == |GotAdders(f, s)| + |RelativeAdders(f, s)|
  {
    hide AllOps, Origins, WriteOf, Performed, GotAdders, RelativeAdders;
    var os, ops := Origins(f, |f.shdrs|), AllOps(f, imports, y, |f.shdrs|);
    OriginsAre(f, imports, y, |f.shdrs|);
    forall o
      ensures o in Adders(f, s) <==> Performed(f, o) && o.section < |f.shdrs| && WriteOf(f, imports, y, o) == AddBase(s)
    {
      AdderIs(f, imports, y, s, o);
      PerformedIn(f, o);
    }
    PlacesOf(os, Adders(f, s));
    assert AddPlaces(ops, s) == Places(os, Adders(f, s));
    AddersDisjoint(f, s);
  }

  lemma PerformedIn(f: File, o: Origin)
    requires f.shstrndx < |f.shdrs|
    ensures Performed(f, o) ==> o.section < |f.shdrs|
  {
  }

  lemma AddersDisjoint(f: File, s: nat)
    requires f.shstrndx < |f.shdrs|
    ensures |Adders(f, s)| == |GotAdders(f, s)| + |RelativeAdders(f, s)|
  {
    hide GotWords, Relocations, IsRelative, SlotOf;
    assert GotAdders(f, s) !! RelativeAdders(f, s);
  }

  // ------------------------------------------------------------- symbol tables

  /** The dynamic string table is the first section of type 3 named ".dynstr", the dynamic symbol table the
      first of type 11. */
  lemma SymbolTablesAre(f: File, j: nat, l: nat)
    requires f.shstrndx < |f.shdrs| && j < |f.shdrs| && l < |f.shdrs|
    requires DynstrSection(f, j) && forall i :: 0 <= i < j ==> !DynstrSection(f, i)
    requires f.shdrs[l].typ == 11 && forall i :: 0 <= i < l ==> f.shdrs[i].typ != 11
    ensures SymbolsOf(f) == Symbols(f.shdrs[j], f.shdrs[l])
  {
    hide CString;
    assert forall i :: 0 <= i <= j ==> (DynstrSection(f, i) <==> IsDynstr(f, f.shdrs[i]));
    DynstrIsFirst(f, 0, j);
    DynsymIsFirst(f, 0, l);
  }

  predicate DynstrSection(f: File, i: nat)
    requires f.shstrndx < |f.shdrs| && i < |f.shdrs|
  {
    && f.shdrs[i].typ == 3
    && CString(f.contents, f.shdrs[f.shstrndx].offset + f.shdrs[i].name) == [0x2E, 0x64, 0x79, 0x6E, 0x73, 0x74, 0x72]
  }
}

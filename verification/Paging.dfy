/** The index packing of freestanding/x86utils.cc: a 48-bit address is four 9-bit
    table indices above a 12-bit page offset. */
module Paging {
  import opened Bits

  const ENTRIES: nat := 512
  const PAGE_4K: nat := 0x1000
  const PAGE_2M: nat := 0x20_0000
  const PAGE_1G: nat := 0x4000_0000
  /** What one PML4 entry maps: 512 GiB. */
  const PML4_SPAN: nat := 0x80_0000_0000
  const ADDRESS_SPACE: nat := 0x1_0000_0000_0000

  datatype Indices = Indices(pml4: nat, pdpt: nat, pd: nat, pt: nat) {
    predicate Valid() { pml4 < ENTRIES && pdpt < ENTRIES && pd < ENTRIES && pt < ENTRIES }
  }

  /** The 4 KiB page an address lies in. */
  function PageOf(a: nat): nat { a - a % PAGE_4K }

  /** The index arithmetic the bit fields stand for. */
  function Flat(x: Indices): nat
  {
    x.pml4 * PML4_SPAN + x.pdpt * PAGE_1G + x.pd * PAGE_2M + x.pt * PAGE_4K
  }

  /** `address_to_pt`. */
  function AddressToPt(address: u64): (x: Indices)
    ensures x.Valid()
  {
    Indices(address / PML4_SPAN % ENTRIES, address / PAGE_1G % ENTRIES, address / PAGE_2M % ENTRIES, address / PAGE_4K % ENTRIES)
  }

  /** `pt_to_address`: each index is truncated to its nine bits. */
  function PtToAddress(pml4: u32, pdpt: u32, pd: u32, pt: u32): (address: u64)
  {
    Flat(Indices(pml4 % ENTRIES, pdpt % ENTRIES, pd % ENTRIES, pt % ENTRIES))
  }

  /** The four reads of `address_to_pt` are bit fields of the address. */
  lemma UnpackIsFields(address: u64)
    ensures AddressToPt(address)
         == Indices(Field(address, 39, 9), Field(address, 30, 9), Field(address, 21, 9), Field(address, 12, 9))
  {
    hide Pow2;
    Pow2Values();
  }

  /** The four bit-field writes of `pt_to_address`, from a zero word. */
  lemma PackIsFields(pml4: u32, pdpt: u32, pd: u32, pt: u32)
    ensures WithField(WithField(WithField(WithField(0, 39, 9, pml4), 30, 9, pdpt), 21, 9, pd), 12, 9, pt)
         == PtToAddress(pml4, pdpt, pd, pt)
  {
    hide WithField;
    var w1 := pml4 % ENTRIES * PML4_SPAN;
    var w2 := w1 + pdpt % ENTRIES * PAGE_1G;
    var w3 := w2 + pd % ENTRIES * PAGE_2M;
    PutIndex(0, 39, PML4_SPAN, pml4);
    PutIndex(w1, 30, PAGE_1G, pdpt);
    PutIndex(w2, 21, PAGE_2M, pd);
    PutIndex(w3, 12, PAGE_4K, pt);
  }

  /** Writing a 9-bit index into a word that is zero there and below. */
  lemma PutIndex(w: nat, lo: nat, span: nat, index: u32)
    requires (lo, span) in {(39, PML4_SPAN), (30, PAGE_1G), (21, PAGE_2M), (12, PAGE_4K)}
    requires w % (span * ENTRIES) == 0
    ensures WithField(w, lo, 9, index) == w + index % ENTRIES * span
  {
    Pow2Values();
    hide Pow2, WithField;
    assert Pow2(lo) == span && Pow2(9) == ENTRIES;
    DivDiv(w, span, ENTRIES);
    WithFieldAdds(w, lo, 9, index);
  }

  /** Packing in-range indices truncates nothing. */
  lemma PackIsFlat(x: Indices)
    requires x.Valid()
    ensures PtToAddress(x.pml4, x.pdpt, x.pd, x.pt) == Flat(x)
  {
  }

  /** Unpacking what was packed gives the indices back: packing loses nothing. */
  lemma UnpackPack(x: Indices)
    requires x.Valid()
    ensures AddressToPt(PtToAddress(x.pml4, x.pdpt, x.pd, x.pt)) == x
  {
    hide PtToAddress, Flat;
    PackIsFlat(x);
    FlatDigits(x);
  }

  /** The indices are the base-512 digits of the address. */
  lemma FlatDigits(x: Indices)
    requires x.Valid()
    ensures Flat(x) / PAGE_4K % ENTRIES == x.pt && Flat(x) / PAGE_2M % ENTRIES == x.pd
    ensures Flat(x) / PAGE_1G % ENTRIES == x.pdpt && Flat(x) / PML4_SPAN == x.pml4
  {
    var g := x.pml4 * ENTRIES + x.pdpt;
    var m := g * ENTRIES + x.pd;
    var p := m * ENTRIES + x.pt;
    DivModUnique(Flat(x), PAGE_4K, p, 0);
    DivModUnique(Flat(x), PAGE_2M, m, x.pt * PAGE_4K);
    DivModUnique(Flat(x), PAGE_1G, g, x.pd * PAGE_2M + x.pt * PAGE_4K);
    DivModUnique(Flat(x), PML4_SPAN, x.pml4, x.pdpt * PAGE_1G + x.pd * PAGE_2M + x.pt * PAGE_4K);
    DivModUnique(p, ENTRIES, m, x.pt);
    DivModUnique(m, ENTRIES, g, x.pd);
    DivModUnique(g, ENTRIES, x.pml4, x.pdpt);
  }

  /** Packing the unpacked indices gives the page the address lies in, so the two are
      mutually inverse on page-aligned 48-bit addresses. */
  lemma PackUnpack(address: u64)
    requires address < ADDRESS_SPACE
    ensures var x := AddressToPt(address);
            PtToAddress(x.pml4, x.pdpt, x.pd, x.pt) == PageOf(address)
  {
    hide PtToAddress, Flat, AddressToPt;
    PackIsFlat(AddressToPt(address));
    FlatOfIndices(address);
  }

  lemma FlatOfIndices(address: u64)
    requires address < ADDRESS_SPACE
    ensures Flat(AddressToPt(address)) == PageOf(address)
  {
    var p := address / PAGE_4K;
    var q := p / ENTRIES;
    var g := q / ENTRIES;
    DivDiv(address, PAGE_4K, ENTRIES);
    DivDiv(address, PAGE_2M, ENTRIES);
    DivDiv(address, PAGE_1G, ENTRIES);
    assert g / ENTRIES < ENTRIES;
    assert g == g / ENTRIES * ENTRIES + g % ENTRIES && p == q * ENTRIES + p % ENTRIES && q == g * ENTRIES + q % ENTRIES;
  }
}

/** The program-header half of freestanding/elf_mapper.cc: how large the image is, and which byte
    ends up where. */
module ElfSegments {
  import opened Bits
  import opened BitOps
  import opened Bytes
  import opened EfiCore

  const EHDR_SIZE: nat := 64
  const PT_LOAD: nat := 1

  datatype Phdr = Phdr(typ: u32, offset: u64, vaddr: u64, filesz: u64, memsz: u64) {
    /** The written type test, `p_type & PT_LOAD`. */
    predicate Copied() { And(typ, PT_LOAD) != 0 }

    /** Bytes the loop writes for this header. */
    function Written(): nat { if Copied() then filesz else memsz }

    predicate Covers(x: nat) { vaddr <= x < vaddr + Written() }

    /** The byte the header puts at `x`. */
    function Dictates(file: bytes, x: nat): u8
      requires Covers(x) && ReadsFrom(file)
    {
      if Copied() then file[offset + (x - vaddr)] else 0
    }

    predicate ReadsFrom(file: bytes) { Copied() ==> offset + filesz <= |file| }

    /** The test accepts exactly the odd types, PT_LOAD among them. */
    lemma CopiedIsOdd()
      ensures Copied() <==> typ % 2 == 1
    {
      AndLowMask(typ, 1);
      Pow2Values();
    }
  }

  /** Every read of the segment loop is inside the file. */
  ghost predicate Readable(file: bytes, phdrs: seq<Phdr>)
  {
    |file| >= EHDR_SIZE && forall i :: 0 <= i < |phdrs| ==> phdrs[i].ReadsFrom(file)
  }

  /** Every write of the header copy and the segment loop is inside an image of this size. */
  ghost predicate FitsIn(phdrs: seq<Phdr>, size: nat)
  {
    EHDR_SIZE <= size && forall i :: 0 <= i < |phdrs| && phdrs[i].Written() > 0 ==> phdrs[i].vaddr + phdrs[i].Written() <= size
  }

  // ---------------------------------------------------------------- mapped size

  /** `r` is the largest segment end, or 0 if there is none above 0. */
  ghost predicate LargestEnd(phdrs: seq<Phdr>, r: nat)
  {
    && (forall i :: 0 <= i < |phdrs| ==> (phdrs[i].vaddr + phdrs[i].memsz) % U64_SIZE <= r)
    && (r == 0 || exists i :: 0 <= i < |phdrs| && (phdrs[i].vaddr + phdrs[i].memsz) % U64_SIZE == r)
  }

  /** `get_mapped_size`. */
  method GetMappedSize(phdrs: seq<Phdr>) returns (result: u64)
    ensures LargestEnd(phdrs, result)
  {
    result := 0;
    for i := 0 to |phdrs|
      invariant LargestEnd(phdrs[..i], result)
    {
      var off := (phdrs[i].vaddr + phdrs[i].memsz) % U64_SIZE;
      assert phdrs[..i + 1] == phdrs[..i] + [phdrs[i]];
      assert phdrs[..i + 1][i] == phdrs[i];
      if off > result { result := off; }
    }
    assert phdrs[..|phdrs|] == phdrs;
  }

  /** The largest end is unique. */
  lemma LargestEndUnique(phdrs: seq<Phdr>, r: nat, r': nat)
    requires LargestEnd(phdrs, r) && LargestEnd(phdrs, r')
    ensures r == r'
  {
    if r > 0 { var i :| 0 <= i < |phdrs| && (phdrs[i].vaddr + phdrs[i].memsz) % U64_SIZE == r; }
    if r' > 0 { var i :| 0 <= i < |phdrs| && (phdrs[i].vaddr + phdrs[i].memsz) % U64_SIZE == r'; }
  }

  /** Segments whose file part is inside the memory part and whose ends do not wrap. */
  ghost predicate WellSized(phdrs: seq<Phdr>)
  {
    forall i :: 0 <= i < |phdrs| ==> phdrs[i].filesz <= phdrs[i].memsz && phdrs[i].vaddr + phdrs[i].memsz < U64_SIZE
  }

  /** For well-sized segments, an image that holds the ELF header and reaches the largest end holds every
      segment write. */
  lemma ContainedBelowLargestEnd(phdrs: seq<Phdr>, r: nat, size: nat)
    requires WellSized(phdrs) && LargestEnd(phdrs, r) && size >= r && size >= EHDR_SIZE
    ensures FitsIn(phdrs, size)
  {
    forall i | 0 <= i < |phdrs| && phdrs[i].Written() > 0
      ensures phdrs[i].vaddr + phdrs[i].Written() <= size
    {
      assert (phdrs[i].vaddr + phdrs[i].memsz) % U64_SIZE == phdrs[i].vaddr + phdrs[i].memsz;
    }
  }

  /** The pages the loader allocates hold every write exactly when the mapped size is not zero. */
  lemma LoaderAllocationSuffices(phdrs: seq<Phdr>, r: u64)
    requires WellSized(phdrs) && LargestEnd(phdrs, r) && r + PAGE_SIZE <= U64_SIZE
    ensures FitsIn(phdrs, NumPages(r) * PAGE_SIZE) <==> r > 0
  {
    hide And, NumPages;
    NumPagesExactly(r);
    if r > 0 {
      ContainedBelowLargestEnd(phdrs, r, NumPages(r) * PAGE_SIZE);
    }
  }

  // ------------------------------------------------------------ segment mapping

  /** The image byte at `x` after the header copy and the first n program headers. */
  function ByteAfter(file: bytes, phdrs: seq<Phdr>, n: nat, prior: bytes, x: nat): u8
    requires n <= |phdrs| && x < |prior| && |file| >= EHDR_SIZE
    requires forall i :: 0 <= i < |phdrs| ==> phdrs[i].ReadsFrom(file)
  {
    if n == 0 then if x < EHDR_SIZE then file[x] else prior[x]
    else if phdrs[n - 1].Covers(x) then phdrs[n - 1].Dictates(file, x)
    else ByteAfter(file, phdrs, n - 1, prior, x)
  }

  /** The whole image after the segment loop. */
  function Segments(file: bytes, phdrs: seq<Phdr>, n: nat, prior: bytes): (image: bytes)
    requires n <= |phdrs| && |file| >= EHDR_SIZE
    requires forall i :: 0 <= i < |phdrs| ==> phdrs[i].ReadsFrom(file)
    ensures |image| == |prior|
  {
    seq<u8>(|prior|, x requires 0 <= x < |prior| => ByteAfter(file, phdrs, n, prior, x))
  }

  /** What the loop does with a header, on the header's own fields: an odd type has its file bytes copied to
      its address, an even one its memory range cleared. */
  predicate Writes(p: Phdr, x: nat)
  {
    p.vaddr <= x < p.vaddr + if p.typ % 2 == 1 then p.filesz else p.memsz
  }

  lemma CoversIsWrites(p: Phdr, x: nat)
    ensures p.Covers(x) <==> Writes(p, x)
  {
    hide And;
    p.CopiedIsOdd();
  }

  /** Last writer wins: in the image the loop leaves, a byte comes from the last header that writes it, from
      the same distance into the file part for an odd type, and is 0 for an even one. */
  lemma LastWriterWins(file: bytes, phdrs: seq<Phdr>, prior: bytes, x: nat, j: nat)
    requires Readable(file, phdrs) && x < |prior|
    requires j < |phdrs| && Writes(phdrs[j], x) && forall l :: j < l < |phdrs| ==> !Writes(phdrs[l], x)
    ensures phdrs[j].typ % 2 == 1 ==> phdrs[j].offset + (x - phdrs[j].vaddr) < |file|
    ensures Segments(file, phdrs, |phdrs|, prior)[x]
         == if phdrs[j].typ % 2 == 1 then file[phdrs[j].offset + (x - phdrs[j].vaddr)] else 0
  {
    hide And, ByteAfter, Phdr.Covers;
    var p := phdrs[j];
    p.CopiedIsOdd();
    CoversIsWrites(p, x);
    forall l | j < l < |phdrs|
      ensures !phdrs[l].Covers(x)
    {
      CoversIsWrites(phdrs[l], x);
    }
    assert p.ReadsFrom(file);
    LastCovers(file, phdrs, |phdrs|, prior, x, j);
  }

  lemma {:induction false} LastCovers(file: bytes, phdrs: seq<Phdr>, n: nat, prior: bytes, x: nat, j: nat)
    requires Readable(file, phdrs) && n <= |phdrs| && x < |prior|
    requires j < n && phdrs[j].Covers(x) && forall l :: j < l < n ==> !phdrs[l].Covers(x)
    ensures ByteAfter(file, phdrs, n, prior, x) == phdrs[j].Dictates(file, x)
  {
    hide Phdr.Covers, Phdr.Dictates;
    if j < n - 1 {
      LastCovers(file, phdrs, n - 1, prior, x, j);
    }
  }

  /** A byte no header writes is a byte of the ELF header, if it is one of the first 64, or keeps its old
      value. */
  lemma UncoveredByte(file: bytes, phdrs: seq<Phdr>, prior: bytes, x: nat)
    requires Readable(file, phdrs) && x < |prior| && forall l :: 0 <= l < |phdrs| ==> !Writes(phdrs[l], x)
    ensures |file| >= 64 && Segments(file, phdrs, |phdrs|, prior)[x] == if x < 64 then file[x] else prior[x]
  {
    hide ByteAfter, Phdr.Covers, Writes;
    forall l | 0 <= l < |phdrs|
      ensures !phdrs[l].Covers(x)
    {
      CoversIsWrites(phdrs[l], x);
    }
    NothingCovers(file, phdrs, |phdrs|, prior, x);
  }

  lemma {:induction false} NothingCovers(file: bytes, phdrs: seq<Phdr>, n: nat, prior: bytes, x: nat)
    requires Readable(file, phdrs) && n <= |phdrs| && x < |prior|
    requires forall l :: 0 <= l < n ==> !phdrs[l].Covers(x)
    ensures ByteAfter(file, phdrs, n, prior, x) == if x < EHDR_SIZE then file[x] else prior[x]
  {
    hide Phdr.Covers, Phdr.Dictates;
    if n > 0 {
      NothingCovers(file, phdrs, n - 1, prior, x);
    }
  }

  /** The part of a loaded segment beyond its file bytes is not cleared: where nothing else writes,
      it is zero after loading exactly when it was zero before. */
  lemma TailNotCleared(file: bytes, phdrs: seq<Phdr>, i: nat, prior: bytes, x: nat)
    requires Readable(file, phdrs) && i < |phdrs| && phdrs[i].typ % 2 == 1 && 64 <= x < |prior|
    requires phdrs[i].vaddr + phdrs[i].filesz <= x < phdrs[i].vaddr + phdrs[i].memsz
    requires forall l :: 0 <= l < |phdrs| && l != i ==> !Writes(phdrs[l], x)
    ensures Segments(file, phdrs, |phdrs|, prior)[x] == 0 <==> prior[x] == 0
  {
    hide ByteAfter;
    UncoveredByte(file, phdrs, prior, x);
  }

  /** `_movsb` and `_stosb` on the image. */
  method CopyBytes(image: array<u8>, to: nat, file: bytes, from: nat, n: nat)
    requires to + n <= image.Length && from + n <= |file|
    modifies image
    ensures forall x :: 0 <= x < image.Length ==>
              image[x] == if to <= x < to + n then file[from + (x - to)] else old(image[x])
  {
    forall k | 0 <= k < n { image[to + k] := file[from + k]; }
  }

  method ZeroBytes(image: array<u8>, to: nat, n: nat)
    requires to + n <= image.Length
    modifies image
    ensures forall x :: 0 <= x < image.Length ==> image[x] == if to <= x < to + n then 0 else old(image[x])
  {
    forall k | 0 <= k < n { image[to + k] := 0; }
  }

  /** The first half of `map_to`. */
  method MapSegments(file: bytes, phdrs: seq<Phdr>, image: array<u8>)
    requires Readable(file, phdrs) && FitsIn(phdrs, image.Length)
    modifies image
    ensures image[..] == Segments(file, phdrs, |phdrs|, old(image[..]))
  {
    hide And;
    ghost var before := image[..];
    CopyBytes(image, 0, file, 0, EHDR_SIZE);
    var i := 0;
    while i < |phdrs|
      invariant i <= |phdrs|
      invariant forall x :: 0 <= x < image.Length ==> image[x] == ByteAfter(file, phdrs, i, before, x)
    {
      var section := phdrs[i];
      if section.Copied() {
        if section.filesz > 0 {
          CopyBytes(image, section.vaddr, file, section.offset, section.filesz);
        }
      } else if section.memsz > 0 {
        ZeroBytes(image, section.vaddr, section.memsz);
      }
      i := i + 1;
    }
  }
}

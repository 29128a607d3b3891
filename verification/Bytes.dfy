/** Little-endian integers in byte strings. */
module Bytes {
  import opened Bits

  type bytes = seq<u8>

  function LeValue(b: bytes): (v: nat)
  {
    if b == [] then 0 else b[0] + 0x100 * LeValue(b[1..])
  }

  function LeBytes(v: nat, n: nat): (b: bytes)
    ensures |b| == n
  {
    if n == 0 then [] else [v % 0x100] + LeBytes(v / 0x100, n - 1)
  }

  lemma {:induction false} LeBound(b: bytes)
    ensures LeValue(b) < Pow2(8 * |b|)
  {
    if b != [] {
      LeBound(b[1..]);
      Pow2Add(8, 8 * |b[1..]|);
      Pow2Values();
    }
  }

  lemma {:induction false} LeRoundTrip(v: nat, n: nat)
    requires v < Pow2(8 * n)
    ensures LeValue(LeBytes(v, n)) == v
  {
    if n > 0 {
      Pow2Add(8, 8 * (n - 1));
      Pow2Values();
      LeRoundTrip(v / 0x100, n - 1);
      assert LeBytes(v, n)[1..] == LeBytes(v / 0x100, n - 1);
    }
  }

  /** The 8-byte word at an offset. */
  function Load64(b: bytes, off: nat): u64
    requires off + 8 <= |b|
  {
    LeBound(b[off..off + 8]);
    Pow2Values();
    LeValue(b[off..off + 8])
  }

  function Store64(b: bytes, off: nat, v: u64): (r: bytes)
    requires off + 8 <= |b|
    ensures |r| == |b|
    ensures forall x :: 0 <= x < |b| && !(off <= x < off + 8) ==> r[x] == b[x]
  {
    b[..off] + LeBytes(v, 8) + b[off + 8..]
  }

  /** A stored word is loaded back. */
  lemma LoadStored(b: bytes, off: nat, v: u64)
    requires off + 8 <= |b|
    ensures Load64(Store64(b, off, v), off) == v
  {
    Pow2Values();
    LeRoundTrip(v, 8);
    assert Store64(b, off, v)[off..off + 8] == LeBytes(v, 8);
  }

  /** A store leaves the words it does not overlap alone. */
  lemma LoadOther(b: bytes, off: nat, v: u64, off': nat)
    requires off + 8 <= |b| && off' + 8 <= |b| && (off + 8 <= off' || off' + 8 <= off)
    ensures Load64(Store64(b, off, v), off') == Load64(b, off')
  {
    assert Store64(b, off, v)[off'..off' + 8] == b[off'..off' + 8];
  }
}

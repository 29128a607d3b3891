/** The number printer of freestanding/libc/itoa.cc: digits from the low end, padding, and an
    in-place reversal. */
module Itoa {
  import opened Bits
  import opened Bytes

  function DigitChar(d: nat): u8
    requires d < 16
  {
    if d < 10 then 0x30 + d else 0x41 + (d - 10)
  }

  /** The sixteen digit characters. */
  lemma DigitChars(d: nat)
    requires d < 16
    ensures DigitChar(d) == "0123456789ABCDEF"[d] as int
  {
  }

  function CharDigit(c: u8): nat { if 0x30 <= c < 0x3A then c - 0x30 else if 0x41 <= c < 0x47 then c - 0x41 + 10 else 0 }

  /** The characters of the digit loop: least significant first, at least one. */
  function LowFirst(v: nat, radix: nat): (b: bytes)
    requires 2 <= radix <= 16
    ensures |b| >= 1
    decreases v
  {
    QuotientSmaller(v, radix);
    [DigitChar(v % radix)] + if v / radix == 0 then [] else LowFirst(v / radix, radix)
  }

  lemma QuotientSmaller(v: nat, radix: nat)
    requires radix >= 2
    ensures v / radix >= 0 && 0 <= v % radix < radix && (v > 0 ==> v / radix < v) && v == v / radix * radix + v % radix
  {
    DivNonNegative(v, radix);
    DivMod(v, radix);
    if v > 0 && v / radix >= v {
      MulLe(v, v / radix, radix);
      MulLe(2, radix, v);
    }
  }

  function Reversed(b: bytes): (r: bytes)
    ensures |r| == |b| && forall k :: 0 <= k < |b| ==> r[k] == b[|b| - 1 - k]
  {
    if b == [] then [] else Reversed(b[1..]) + [b[0]]
  }

  function Zeros(n: nat): (b: bytes)
    ensures |b| == n && forall k :: 0 <= k < n ==> b[k] == 0
  {
    if n == 0 then [] else Zeros(n - 1) + [0]
  }

  /** What the loops leave before the terminator: padding is appended before the reversal, and is NUL. */
  function Padded(v: nat, radix: nat, pad: nat): (b: bytes)
    requires 2 <= radix <= 16
    ensures |b| == if |LowFirst(v, radix)| < pad then pad else |LowFirst(v, radix)|
  {
    var d := LowFirst(v, radix);
    if |d| < pad then d + Zeros(pad - |d|) else d
  }

  // --------------------------------------------------------------------- code

  /** `itoa`.  The sign argument changes nothing: the value is unsigned, so it is never negative. */
  method Itoa(value: u64, buff: array<u8>, radix: u32, sign: bool, pad: u32) returns (len: nat)
    requires radix >= 2 && buff.Length > 0
    requires radix <= 16 ==> |Padded(value, radix, pad)| < buff.Length
    modifies buff
    ensures len == (if radix > 16 then 0 else |Padded(value, radix, pad)|) < buff.Length && buff[len] == 0
    ensures radix <= 16 ==> forall k :: 0 <= k < len ==> buff[k] == Reversed(Padded(value, radix, pad))[k]
    ensures forall k :: len < k < buff.Length ==> buff[k] == old(buff[k])
    ensures CText(buff[..]) == if radix <= 16 && pad <= |LowFirst(value, radix)| then Numeral(value, radix) else []
  {
    hide LowFirst, Reversed, Numeral;
    if radix > 16 {
      buff[0] := 0;
      return 0;
    }
    var neg := sign && value < 0;
    ghost var text := Padded(value, radix, pad);
    len := PutDigits(value, buff, radix);
    len := PutPadding(buff, len, pad);
    assert forall k :: 0 <= k < len ==> buff[k] == text[k];
    if neg {
      assert false;
    }
    buff[len] := 0;
    ReversePrefix(buff, len, text);
    CTextStops(buff[..], len);
    assert buff[..][..len] == Reversed(text);
    PaddingExactly(value, radix, pad);
  }

  /** The padding loop. */
  method PutPadding(buff: array<u8>, start: nat, pad: nat) returns (p: nat)
    requires start < buff.Length && pad < buff.Length
    modifies buff
    ensures p == if start < pad then pad else start
    ensures forall k :: 0 <= k < buff.Length ==> buff[k] == if start <= k < p then 0 else old(buff[k])
  {
    p := start;
    while p < pad
      invariant start <= p && (p <= pad || p == start)
      invariant forall k :: 0 <= k < buff.Length ==> buff[k] == if start <= k < p then 0 else old(buff[k])
    {
      buff[p] := 0;
      p := p + 1;
    }
  }

  lemma LowFirstStep(v: nat, radix: nat)
    requires 2 <= radix <= 16
    ensures v / radix >= 0 && 0 <= v % radix < radix && (v / radix > 0 ==> v / radix < v)
    ensures LowFirst(v, radix) == [DigitChar(v % radix)] + if v / radix == 0 then [] else LowFirst(v / radix, radix)
  {
    QuotientSmaller(v, radix);
    if v == 0 { DivModUnique(0, radix, 0, 0); }
  }

  /** The do/while loop. */
  method PutDigits(value: u64, buff: array<u8>, radix: u32) returns (p: nat)
    requires 2 <= radix <= 16 && |LowFirst(value, radix)| < buff.Length
    modifies buff
    ensures p == |LowFirst(value, radix)|
    ensures forall k :: 0 <= k < buff.Length ==> buff[k] == if k < p then LowFirst(value, radix)[k] else old(buff[k])
  {
    hide LowFirst, DigitChar;
    ghost var all := LowFirst(value, radix);
    var v: nat := value;
    p := 0;
    while true
      invariant p < |all| && all[p..] == LowFirst(v, radix)
      invariant forall k :: 0 <= k < buff.Length ==> buff[k] == if k < p then all[k] else old(buff[k])
      decreases v
    {
      LowFirstStep(v, radix);
      var digit := v % radix;
      assert all[p] == all[p..][0] && all[p + 1..] == all[p..][1..];
      buff[p] := DigitChar(digit);
      p := p + 1;
      v := v / radix;
      if v == 0 { break; }
    }
  }

  /** The reversal loop. */
  method ReversePrefix(buff: array<u8>, len: nat, ghost text: bytes)
    requires len <= buff.Length && |text| == len && forall k :: 0 <= k < len ==> buff[k] == text[k]
    modifies buff
    ensures forall k :: 0 <= k < buff.Length ==> buff[k] == if k < len then Reversed(text)[k] else old(buff[k])
  {
    hide Reversed;
    var i := 0;
    while i < len / 2
      invariant i <= len / 2
      invariant forall k :: 0 <= k < i ==> buff[k] == text[len - 1 - k]
      invariant forall k :: i <= k < len - i ==> buff[k] == text[k]
      invariant forall k :: len - i <= k < len ==> buff[k] == text[len - 1 - k]
      invariant forall k :: len <= k < buff.Length ==> buff[k] == old(buff[k])
    {
      var tmp := buff[i];
      buff[i] := buff[len - i - 1];
      buff[len - i - 1] := tmp;
      i := i + 1;
    }
  }

  // ---------------------------------------------------------------- properties

  /** The value of a numeral, most significant digit first. */
  function NumeralValue(text: bytes, radix: nat): nat
  {
    if text == [] then 0
    else NumeralValue(text[..|text| - 1], radix) * radix + CharDigit(text[|text| - 1])
  }

  function Pow(b: nat, e: nat): nat { if e == 0 then 1 else b * Pow(b, e - 1) }

  /** The numeral printed without padding. */
  function Numeral(v: nat, radix: nat): bytes
    requires 2 <= radix <= 16
  {
    Reversed(LowFirst(v, radix))
  }

  lemma NumeralStep(v: nat, radix: nat)
    requires 2 <= radix <= 16
    ensures v / radix >= 0 && 0 <= v % radix < radix
    ensures Numeral(v, radix) == (if v / radix == 0 then [] else Numeral(v / radix, radix)) + [DigitChar(v % radix)]
  {
    QuotientSmaller(v, radix);
    var b := LowFirst(v, radix);
    assert b[1..] == if v / radix == 0 then [] else LowFirst(v / radix, radix);
  }

  /** The printed numeral denotes the value, so distinct values print differently. */
  lemma {:induction false} NumeralIsExact(v: nat, radix: nat)
    requires 2 <= radix <= 16
    ensures NumeralValue(Numeral(v, radix), radix) == v
    decreases v
  {
    QuotientSmaller(v, radix);
    NumeralStep(v, radix);
    var q, c := v / radix, DigitChar(v % radix);
    var front: bytes := if q == 0 then [] else Numeral(q, radix);
    assert Numeral(v, radix)[..|Numeral(v, radix)| - 1] == front;
    hide Numeral, LowFirst;
    if q != 0 { NumeralIsExact(q, radix); }
    assert NumeralValue(front, radix) == q;
  }

  /** No leading zero except for zero itself, and no NUL inside. */
  lemma {:induction false} NumeralIsCanonical(v: nat, radix: nat)
    requires 2 <= radix <= 16
    ensures |Numeral(v, radix)| >= 1 && (Numeral(v, radix)[0] == 0x30 <==> v == 0)
    ensures v == 0 ==> Numeral(v, radix) == [0x30]
    ensures forall k :: 0 <= k < |Numeral(v, radix)| ==> Numeral(v, radix)[k] != 0
    decreases v
  {
    QuotientSmaller(v, radix);
    NumeralStep(v, radix);
    hide Numeral, LowFirst;
    if v / radix != 0 {
      NumeralIsCanonical(v / radix, radix);
    }
  }

  /** The length is the number of digits the value needs. */
  lemma {:induction false} NumeralLength(v: nat, radix: nat)
    requires 2 <= radix <= 16
    ensures v < Pow(radix, |Numeral(v, radix)|)
    ensures v > 0 ==> |Numeral(v, radix)| >= 1 && Pow(radix, |Numeral(v, radix)| - 1) <= v
    decreases v
  {
    hide Numeral, LowFirst, Pow;
    QuotientSmaller(v, radix);
    NumeralStep(v, radix);
    var q, n := v / radix, |Numeral(v, radix)|;
    if q == 0 {
      PowStep(radix, 0);
    } else {
      NumeralLength(q, radix);
      PowStep(radix, n - 1);
      PowStep(radix, n - 2);
      ScaledBounds(v, q, v % radix, radix, Pow(radix, n - 2), Pow(radix, n - 1));
    }
  }

  lemma PowStep(b: nat, e: nat)
    ensures Pow(b, e + 1) == b * Pow(b, e) && Pow(b, 0) == 1
  {
  }

  lemma ScaledBounds(v: nat, q: nat, m: nat, r: nat, lo: nat, hi: nat)
    requires v == q * r + m && m < r && lo <= q < hi
    ensures r * lo <= v < r * hi
  {
    MulLe(q + 1, hi, r);
    MulLe(lo, q, r);
    assert (q + 1) * r == q * r + r;
  }

  /** A 64-bit value in hexadecimal fits the 17-byte buffer of the console, terminator included. */
  lemma HexFitsConsoleBuffer(v: u64)
    ensures |Padded(v, 16, 0)| < 17
  {
    hide LowFirst, Pow;
    NumeralLength(v, 16);
    NumeralIsCanonical(v, 16);
    var n := |Numeral(v, 16)|;
    if n > 16 {
      PowMonotone(16, 16, n - 1);
      PowSixteen();
    }
  }

  lemma {:induction false} PowMonotone(b: nat, m: nat, n: nat)
    requires b >= 1 && m <= n
    ensures 1 <= Pow(b, m) <= Pow(b, n)
  {
    if m == 0 {
      if n > 0 {
        PowMonotone(b, 0, n - 1);
        MulLe(1, b, Pow(b, n - 1));
      }
    } else {
      PowMonotone(b, m - 1, n - 1);
      MulLe(Pow(b, m - 1), Pow(b, n - 1), b);
      MulLe(1, b, Pow(b, m - 1));
    }
  }

  lemma PowSixteen()
    ensures Pow(16, 16) == U64_SIZE
  {
    assert Pow(16, 4) == 0x1_0000;
    assert Pow(16, 8) == 0x1_0000_0000;
    assert Pow(16, 12) == 0x1_0000_0000_0000;
  }

  /** The C string in a buffer. */
  function CText(b: bytes): bytes
  {
    if b == [] || b[0] == 0 then [] else [b[0]] + CText(b[1..])
  }

  lemma {:induction false} CTextWhole(b: bytes)
    requires forall k :: 0 <= k < |b| ==> b[k] != 0
    ensures CText(b) == b
  {
    if b != [] {
      CTextWhole(b[1..]);
    }
  }

  /** The C string ends at the first NUL. */
  lemma {:induction false} CTextStops(b: bytes, n: nat)
    requires n < |b| && b[n] == 0
    ensures CText(b) == CText(b[..n])
  {
    if n > 0 && b[0] != 0 {
      CTextStops(b[1..], n - 1);
      assert b[..n][1..] == b[1..][..n - 1];
    }
  }

  /** The printed C string is the numeral exactly when the requested width is at most the digit count:
      a larger one puts NUL bytes in front, and the string is empty. */
  lemma PaddingExactly(v: nat, radix: nat, pad: nat)
    requires 2 <= radix <= 16
    ensures CText(Reversed(Padded(v, radix, pad))) == Numeral(v, radix) <==> pad <= |LowFirst(v, radix)|
    ensures pad > |LowFirst(v, radix)| ==> CText(Reversed(Padded(v, radix, pad))) == []
  {
    hide LowFirst;
    NumeralIsCanonical(v, radix);
    if pad <= |LowFirst(v, radix)| {
      CTextWhole(Numeral(v, radix));
    } else {
      assert Reversed(Padded(v, radix, pad))[0] == 0;
    }
  }
}

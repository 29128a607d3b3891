/** Machine words as natural numbers, and the C bit-field operations on them.

    A word is a number below 2^64.  `Field` and `WithField` are the read and the
    write of a bit field: the write truncates the value to the width of the field
    and leaves every other bit alone. */
module Bits {
  const U8_SIZE: nat := 0x100
  const U16_SIZE: nat := 0x1_0000
  const U32_SIZE: nat := 0x1_0000_0000
  const U64_SIZE: nat := 0x1_0000_0000_0000_0000

  type u8 = x: int | 0 <= x < U8_SIZE
  type u16 = x: int | 0 <= x < U16_SIZE
  type u32 = x: int | 0 <= x < U32_SIZE
  type u64 = x: int | 0 <= x < U64_SIZE

  function Pow2(n: nat): (r: nat)
    ensures r > 0
  {
    if n == 0 then 1 else 2 * Pow2(n - 1)
  }

  lemma DoubleProduct(x: int, y: int)
    ensures 2 * (x * y) == (2 * x) * y
  {
  }

  lemma {:induction false} Pow2Add(a: nat, b: nat)
    ensures Pow2(a + b) == Pow2(a) * Pow2(b)
  {
    if a > 0 {
      var x, y := Pow2(a - 1), Pow2(b);
      Pow2Add(a - 1, b);
      assert Pow2(a) == 2 * x && Pow2(a + b) == 2 * Pow2(a - 1 + b);
      hide Pow2;
      DoubleProduct(x, y);
    }
  }

  lemma {:induction false} Pow2Monotone(a: nat, b: nat)
    requires a <= b
    ensures Pow2(a) <= Pow2(b)
  {
    if a < b {
      Pow2Monotone(a, b - 1);
    }
  }

  lemma Pow2Values()
    ensures Pow2(1) == 2 && Pow2(3) == 8 && Pow2(8) == 0x100 && Pow2(9) == 0x200 && Pow2(12) == 0x1000
    ensures Pow2(16) == 0x1_0000 && Pow2(21) == 0x20_0000 && Pow2(27) == 0x800_0000
    ensures Pow2(30) == 0x4000_0000 && Pow2(32) == U32_SIZE && Pow2(36) == 0x10_0000_0000
    ensures Pow2(39) == 0x80_0000_0000 && Pow2(48) == 0x1_0000_0000_0000 && Pow2(64) == U64_SIZE
  {
    assert Pow2(9) == 0x200;
    assert Pow2(12) == 0x1000;
    assert Pow2(21) == Pow2(12) * Pow2(9) by { Pow2Add(12, 9); }
    assert Pow2(30) == Pow2(21) * Pow2(9) by { Pow2Add(21, 9); }
    assert Pow2(39) == Pow2(30) * Pow2(9) by { Pow2Add(30, 9); }
    assert Pow2(48) == Pow2(39) * Pow2(9) by { Pow2Add(39, 9); }
    assert Pow2(16) == 0x1_0000;
    assert Pow2(64) == Pow2(48) * Pow2(16) by { Pow2Add(48, 16); }
    assert Pow2(27) == Pow2(15) * Pow2(12) by { Pow2Add(15, 12); }
    assert Pow2(36) == Pow2(27) * Pow2(9) by { Pow2Add(27, 9); }
    assert Pow2(32) == Pow2(16) * Pow2(16) by { Pow2Add(16, 16); }
  }

  // ---------------------------------------------------------------- division

  lemma MulLe(a: int, b: int, c: int)
    requires a <= b && 0 <= c
    ensures a * c <= b * c
  {
  }

  /** Quotient and remainder are determined by the division equation. */
  lemma DivModUnique(x: int, d: int, q: int, r: int)
    requires d > 0 && x == q * d + r && 0 <= r < d
    ensures x / d == q && x % d == r
  {
    var q', r' := x / d, x % d;
    var k := q' - q;
    assert k * d == q' * d - q * d;
    if k > 0 {
      MulLe(1, k, d);
    } else if k < 0 {
      MulLe(k, -1, d);
    }
  }

  lemma DivMod(x: int, d: int)
    requires d > 0
    ensures x == x / d * d + x % d
  {
  }

  lemma DivNonNegative(x: nat, d: int)
    requires d > 0
    ensures x / d >= 0
  {
    DivMod(x, d);
    if x / d < 0 {
      MulLe(x / d, -1, d);
    }
  }

  /** Dividing twice is dividing by the product, and so for the remainders. */
  lemma DivDiv(x: nat, a: nat, b: nat)
    requires a > 0 && b > 0
    ensures a * b > 0
    ensures x / (a * b) == x / a / b
    ensures x % (a * b) == x % a + (x / a % b) * a
    ensures x % (a * b) / a == x / a % b
  {
    var q, r := x / a, x % a;
    var q2, r2 := q / b, q % b;
    DivMod(x, a);
    DivMod(q, b);
    Regroup(q2, b, r2, a);
    MulLe(r2 + 1, b, a);
    MulLe(0, r2, a);
    MulLe(1, b, a);
    DivModUnique(x, a * b, q2, r2 * a + r);
    DivModUnique(r2 * a + r, a, r2, r);
  }

  lemma Regroup(q: int, b: int, r: int, a: int)
    ensures (q * b + r) * a == q * (a * b) + r * a && (r + 1) * a == r * a + a && 1 * a == a && b * a == a * b
  {
  }

  // --------------------------------------------------------------- bit fields

  /** Reads the field of `width` bits whose lowest bit is bit `lo`. */
  function Field(w: nat, lo: nat, width: nat): (v: nat)
    ensures v < Pow2(width)
  {
    w / Pow2(lo) % Pow2(width)
  }

  /** Everything of a word above bit `lo`. */
  function Above(w: nat, lo: nat): nat
  {
    DivNonNegative(w, Pow2(lo));
    w / Pow2(lo)
  }

  /** A word is its low part, the field, and its high part. */
  lemma FieldSplit(w: nat, lo: nat, width: nat)
    ensures w == w % Pow2(lo) + Field(w, lo, width) * Pow2(lo) + Above(w, lo + width) * Pow2(lo + width)
    ensures w % Pow2(lo + width) == w % Pow2(lo) + Field(w, lo, width) * Pow2(lo)
  {
    Pow2Add(lo, width);
    DivDiv(w, Pow2(lo), Pow2(width));
    DivMod(w, Pow2(lo + width));
  }

  lemma FieldBelow(w: nat, lo: nat, width: nat)
    ensures 0 <= Field(w, lo, width) * Pow2(lo) <= w
  {
    FieldSplit(w, lo, width);
    hide *;
    MulLe(0, Above(w, lo + width), Pow2(lo + width));
    MulLe(0, Field(w, lo, width), Pow2(lo));
  }

  /** The decomposition of `FieldSplit` is the only one. */
  lemma FieldUnique(low: nat, v: nat, high: nat, lo: nat, width: nat)
    requires low < Pow2(lo) && v < Pow2(width)
    ensures var w := low + v * Pow2(lo) + high * Pow2(lo + width);
            w % Pow2(lo) == low && Field(w, lo, width) == v && Above(w, lo + width) == high
  {
    Pow2Add(lo, width);
    Digits(low, v, high, Pow2(lo), Pow2(width));
  }

  lemma Digits(low: nat, v: nat, high: nat, p: nat, q: nat)
    requires low < p && v < q
    ensures p * q > 0
    ensures var w := low + v * p + high * (p * q);
            w % p == low && w / p % q == v && w / (p * q) == high
  {
    var w := low + v * p + high * (p * q);
    assert (v + high * q) * p == v * p + high * (p * q);
    DivModUnique(w, p, v + high * q, low);
    DivModUnique(v + high * q, q, high, v);
    DivDiv(w, p, q);
  }

  /** Writes the field of `width` bits whose lowest bit is bit `lo`. */
  function WithField(w: nat, lo: nat, width: nat, v: nat): (r: nat)
  {
    FieldBelow(w, lo, width);
    w - Field(w, lo, width) * Pow2(lo) + v % Pow2(width) * Pow2(lo)
  }

  /** A write is read back, truncated to the field; the bits below and above it are kept. */
  lemma FieldWritten(w: nat, lo: nat, width: nat, v: nat)
    ensures var r := WithField(w, lo, width, v);
            && Field(r, lo, width) == v % Pow2(width)
            && r % Pow2(lo) == w % Pow2(lo)
            && Above(r, lo + width) == Above(w, lo + width)
  {
    FieldSplit(w, lo, width);
    FieldUnique(w % Pow2(lo), v % Pow2(width), Above(w, lo + width), lo, width);
  }

  /** Writing a field that holds zero adds the value, shifted into place. */
  lemma WithFieldAdds(w: nat, lo: nat, width: nat, v: nat)
    requires Field(w, lo, width) == 0
    ensures WithField(w, lo, width, v) == w + v % Pow2(width) * Pow2(lo)
  {
  }

  /** A write leaves every field disjoint from it unchanged. */
  lemma FieldFrame(w: nat, lo: nat, width: nat, v: nat, lo': nat, width': nat)
    requires lo' + width' <= lo || lo + width <= lo'
    ensures Field(WithField(w, lo, width, v), lo', width') == Field(w, lo', width')
  {
    FieldWritten(w, lo, width, v);
    hide WithField;
    var r := WithField(w, lo, width, v);
    if lo' + width' <= lo {
      FieldOfLowPart(w, lo, lo', width');
      FieldOfLowPart(r, lo, lo', width');
    } else {
      var gap := lo' - (lo + width);
      Pow2Add(lo + width, gap);
      DivDiv(w, Pow2(lo + width), Pow2(gap));
      DivDiv(r, Pow2(lo + width), Pow2(gap));
    }
  }

  /** A field below bit `lo` only depends on the word modulo 2^lo. */
  lemma FieldOfLowPart(w: nat, lo: nat, lo': nat, width': nat)
    requires lo' + width' <= lo
    ensures Field(w, lo', width') == Field(w % Pow2(lo), lo', width')
  {
    var rest := lo - lo' - width';
    Pow2Add(lo', width' + rest);
    Pow2Add(width', rest);
    LowDigit(w, Pow2(lo'), Pow2(width'), Pow2(rest));
  }

  lemma LowDigit(x: nat, p: nat, q: nat, r: nat)
    requires p > 0 && q > 0 && r > 0
    ensures p * (q * r) > 0 && x % (p * (q * r)) / p % q == x / p % q
  {
    assert q * r > 0;
    DivDiv(x, p, q * r);
    DivDiv(x / p, q, r);
    DivModUnique(x / p % (q * r), q, x / p / q % r, x / p % q);
  }
}

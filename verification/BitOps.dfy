/** Bitwise operators on words, defined bit by bit, and how they act on masks. */
module BitOps {
  import opened Bits

  function And(a: nat, b: nat): (r: nat)
    ensures r <= a && r <= b
  {
    if a == 0 || b == 0 then 0
    else 2 * And(a / 2, b / 2) + (if a % 2 == 1 && b % 2 == 1 then 1 else 0)
  }

  function Or(a: nat, b: nat): (r: nat)
    ensures a <= r && b <= r
    decreases a + b
  {
    if a == 0 && b == 0 then 0
    else 2 * Or(a / 2, b / 2) + (if a % 2 == 1 || b % 2 == 1 then 1 else 0)
  }

  predicate BitSet(x: nat, i: nat)
  {
    Field(x, i, 1) == 1
  }

  /** The bit-scan-forward instruction: the index of the lowest set bit. */
  function Bsf(m: nat): (k: nat)
    requires m > 0
    ensures BitSet(m, k) && m % Pow2(k) == 0
    ensures Pow2(k) <= m
    decreases m
  {
    if m % 2 == 1 then 0
    else
      var k := Bsf(m / 2);
      BitHalf(m, k + 1);
      DivDiv(m, 2, Pow2(k));
      k + 1
  }

  lemma BitHalf(x: nat, i: nat)
    requires i > 0
    ensures BitSet(x, i) <==> BitSet(x / 2, i - 1)
  {
    DivDiv(x, 2, Pow2(i - 1));
  }

  function Shl(m: nat, k: nat): nat
  {
    if k == 0 then m else 2 * Shl(m, k - 1)
  }

  lemma {:induction false} ShlIsProduct(m: nat, k: nat)
    ensures Shl(m, k) == m * Pow2(k)
  {
    if k > 0 {
      var p := Pow2(k - 1);
      ShlIsProduct(m, k - 1);
      assert Pow2(k) == 2 * p;
      hide Pow2;
      assert m * (2 * p) == 2 * (m * p);
    }
  }

  /** Masking with a shifted mask is masking the shifted value. */
  lemma {:induction false} AndShift(a: nat, m: nat, k: nat)
    ensures And(a, Shl(m, k)) == Shl(And(Above(a, k), m), k)
  {
    hide And;
    if k > 0 {
      AndShift(a / 2, m, k - 1);
      AndEven(a, Shl(m, k - 1));
      assert Above(a, k) == Above(a / 2, k - 1) by { DivDiv(a, 2, Pow2(k - 1)); }
    }
  }

  lemma AndEven(a: nat, m: nat)
    ensures And(a, 2 * m) == 2 * And(a / 2, m)
  {
    if a != 0 && m != 0 {
      assert 2 * m / 2 == m && 2 * m % 2 == 0;
    } else if a / 2 == 0 {
    }
  }

  lemma AndOdd(a: nat, m: nat)
    ensures And(a, 2 * m + 1) == 2 * And(a / 2, m) + a % 2
  {
    assert (2 * m + 1) / 2 == m && (2 * m + 1) % 2 == 1;
  }

  /** Masking with all ones below bit `p` is the remainder modulo 2^p. */
  lemma {:induction false} AndLowMask(x: nat, p: nat)
    ensures And(x, Pow2(p) - 1) == x % Pow2(p)
  {
    hide And;
    if p == 0 {
      AndZero(x);
    } else {
      AndLowMask(x / 2, p - 1);
      AndLowMaskStep(x, Pow2(p - 1));
    }
  }

  lemma AndZero(x: nat)
    ensures And(x, 0) == 0
  {
  }

  lemma AndLowMaskStep(x: nat, p: nat)
    requires p > 0 && And(x / 2, p - 1) == x / 2 % p
    ensures And(x, 2 * p - 1) == x % (2 * p)
  {
    hide And;
    assert 2 * p - 1 == 2 * (p - 1) + 1;
    AndOdd(x, p - 1);
    DivDiv(x, 2, p);
  }

  /** A number without its remainder by s. */
  function DropLow(x: nat, s: nat): nat
    requires s > 0
  {
    x - x % s
  }

  /** Masking with ones exactly in bits k..p-1 drops the low k bits of a p-bit number. */
  lemma AndContiguous(x: nat, p: nat, k: nat)
    requires k <= p && x < Pow2(p)
    ensures Pow2(k) <= Pow2(p)
    ensures And(x, Pow2(p) - Pow2(k)) == x - x % Pow2(k)
  {
    hide And, Pow2;
    AndDropsLow(x, p, k);
  }

  lemma {:induction false} AndDropsLow(x: nat, p: nat, k: nat)
    requires k <= p && x < Pow2(p)
    ensures Pow2(k) <= Pow2(p)
    ensures And(x, Pow2(p) - Pow2(k)) == DropLow(x, Pow2(k))
  {
    hide And, Pow2, DropLow;
    Pow2Monotone(k, p);
    if k == 0 {
      AndFromBitZero(x, p);
    } else {
      Pow2Halves(p);
      Pow2Halves(k);
      AndDropsLow(x / 2, p - 1, k - 1);
      AndContiguousStep(x, Pow2(p - 1), Pow2(k - 1), Pow2(p), Pow2(k));
    }
  }

  lemma AndFromBitZero(x: nat, p: nat)
    requires x < Pow2(p)
    ensures Pow2(0) <= Pow2(p) && And(x, Pow2(p) - Pow2(0)) == DropLow(x, Pow2(0))
  {
    hide And;
    AndAllOnes(x, p);
    assert Pow2(0) == 1;
  }

  lemma Pow2Halves(n: nat)
    requires n > 0
    ensures Pow2(n) == 2 * Pow2(n - 1)
  {
  }

  lemma AndAllOnes(x: nat, p: nat)
    requires x < Pow2(p)
    ensures And(x, Pow2(p) - 1) == x
  {
    hide And, Pow2;
    AndLowMask(x, p);
    DivModUnique(x, Pow2(p), 0, x);
  }

  lemma AndContiguousStep(x: nat, p: nat, k: nat, p': nat, k': nat)
    requires 0 < k <= p && p' == 2 * p && k' == 2 * k && And(x / 2, p - k) == DropLow(x / 2, k)
    ensures And(x, p' - k') == DropLow(x, k')
  {
    hide And;
    assert p' - k' == 2 * (p - k);
    AndEven(x, p - k);
    DivDiv(x, 2, k);
  }

  /** A masked value is unchanged by masking it again, and has no bit outside the mask. */
  lemma {:induction false} AndAgain(a: nat, m: nat)
    ensures And(And(a, m), m) == And(a, m)
  {
    if a != 0 && m != 0 {
      AndAgain(a / 2, m / 2);
      var r := And(a, m);
      assert r / 2 == And(a / 2, m / 2);
    }
  }

  /** A bit missing from the mask can be added to a masked value without being seen. */
  lemma {:induction false} AndUnseenBit(a: nat, m: nat, j: nat)
    requires !BitSet(m, j)
    ensures And(And(a, m) + Pow2(j), m) == And(a, m)
  {
    if j == 0 {
      UnseenLowBit(a, m);
    } else if m != 0 {
      var x := And(a, m);
      BitHalf(m, j);
      AndUnseenBit(a / 2, m / 2, j - 1);
      hide BitSet;
      assert a == 0 ==> x == 0;
      assert x / 2 == And(a / 2, m / 2);
      assert (x + Pow2(j)) / 2 == x / 2 + Pow2(j - 1) && (x + Pow2(j)) % 2 == x % 2;
    }
  }

  lemma UnseenLowBit(a: nat, m: nat)
    requires !BitSet(m, 0)
    ensures And(And(a, m) + 1, m) == And(a, m)
  {
    var x := And(a, m);
    assert m == 2 * (m / 2);
    AndAgain(a, m);
    hide And, BitSet;
    AndEven(a, m / 2);
    AndEven(x, m / 2);
    AndEven(x + 1, m / 2);
    assert (x + 1) / 2 == x / 2;
  }

  /** Disjoint bit ranges are combined by addition. */
  lemma {:induction false} OrDisjoint(a: nat, b: nat, k: nat)
    requires b < Pow2(k)
    ensures Or(Shl(a, k), b) == Shl(a, k) + b
  {
    if k == 0 {
      OrZero(a);
    } else {
      OrDisjoint(a, b / 2, k - 1);
    }
  }

  lemma {:induction false} OrCommutes(a: nat, b: nat)
    ensures Or(a, b) == Or(b, a)
    decreases a + b
  {
    if a + b > 0 {
      OrCommutes(a / 2, b / 2);
    }
  }

  lemma {:induction false} OrZero(a: nat)
    ensures Or(a, 0) == a
  {
    if a > 0 {
      OrZero(a / 2);
    }
  }
}

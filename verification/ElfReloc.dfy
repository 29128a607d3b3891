/** What a list of relocation writes does to an image, as a function of the load base. */
module ElfReloc {
  import opened Bits
  import opened Bytes

  /** One write of the relocation loops: a GOT entry or RELATIVE relocation adds the load base to a
      slot, an import or symbol relocation overwrites it. */
  datatype Op = AddBase(slot: nat) | Assign(slot: nat, value: u64)

  ghost predicate InImage(ops: seq<Op>, size: nat)
  {
    forall i :: 0 <= i < |ops| ==> ops[i].slot + 8 <= size
  }

  ghost predicate SlotsAligned(ops: seq<Op>)
  {
    forall i :: 0 <= i < |ops| ==> ops[i].slot % 8 == 0
  }

  function Step(image: bytes, op: Op, base: u64): (r: bytes)
    requires op.slot + 8 <= |image|
    ensures |r| == |image|
  {
    match op
    case AddBase(s) => Store64(image, s, (Load64(image, s) + base) % U64_SIZE)
    case Assign(s, v) => Store64(image, s, v)
  }

  /** The image after all writes, in order. */
  function Apply(ops: seq<Op>, image: bytes, base: u64): (r: bytes)
    requires forall i :: 0 <= i < |ops| ==> ops[i].slot + 8 <= |image|
    ensures |r| == |image|
  {
    if ops == [] then image else Step(Apply(ops[..|ops| - 1], image, base), ops[|ops| - 1], base)
  }

  lemma ApplyAppend(ops: seq<Op>, op: Op, image: bytes, base: u64)
    requires InImage(ops, |image|) && op.slot + 8 <= |image|
    ensures InImage(ops + [op], |image|)
    ensures Apply(ops + [op], image, base) == Step(Apply(ops, image, base), op, base)
  {
    assert (ops + [op])[..|ops + [op]| - 1] == ops;
  }

  // ---------------------------------------------------------------- affine form

  /** What a slot would hold for base 0. */
  function Constant(ops: seq<Op>, image: bytes, s: nat): u64
    requires s + 8 <= |image|
  {
    if ops == [] then Load64(image, s)
    else
      var op := ops[|ops| - 1];
      if op.slot == s && op.Assign? then op.value else Constant(ops[..|ops| - 1], image, s)
  }

  /** How often the base is added to a slot after its last overwrite. */
  function Factor(ops: seq<Op>, s: nat): nat
  {
    if ops == [] then 0
    else
      var op := ops[|ops| - 1];
      var k := Factor(ops[..|ops| - 1], s);
      if op.slot != s then k else if op.AddBase? then k + 1 else 0
  }

  /** After the last overwrite of a slot, its constant is the value stored then. */
  lemma {:induction false} ConstantIsLastAssigned(ops: seq<Op>, image: bytes, p: nat, s: nat, v: u64)
    requires s + 8 <= |image| && p < |ops| && ops[p] == Assign(s, v)
    requires forall l :: p < l < |ops| && ops[l].slot == s ==> ops[l].AddBase?
    ensures Constant(ops, image, s) == v
  {
    hide Load64;
    if p < |ops| - 1 {
      ConstantIsLastAssigned(ops[..|ops| - 1], image, p, s, v);
    }
  }

  /** c + k * base, in 64-bit arithmetic. */
  function Affine(c: u64, k: nat, base: u64): u64
  {
    (c + k * base) % U64_SIZE
  }

  lemma AffineZero(c: u64, base: u64)
    ensures Affine(c, 0, base) == c
  {
  }

  lemma AffineStep(c: u64, k: nat, base: u64)
    ensures (Affine(c, k, base) + base) % U64_SIZE == Affine(c, k + 1, base)
  {
    var x := k * base;
    assert (k + 1) * base == x + base;
    ModAdd(c + x, base);
  }

  lemma ModAdd(x: int, y: int)
    ensures (x % U64_SIZE + y) % U64_SIZE == (x + y) % U64_SIZE
  {
  }

  /** Relocation is affine in the load base: every aligned slot ends up holding a constant plus a
      multiple of the base, neither of which depends on the base. */
  lemma {:induction false} RelocationIsAffine(ops: seq<Op>, image: bytes, base: u64, s: nat)
    requires InImage(ops, |image|) && SlotsAligned(ops) && s % 8 == 0 && s + 8 <= |image|
    ensures Load64(Apply(ops, image, base), s) == Affine(Constant(ops, image, s), Factor(ops, s), base)
  {
    hide Load64, Store64, Affine;
    if ops == [] {
      AffineZero(Load64(image, s), base);
    } else {
      var init, op := ops[..|ops| - 1], ops[|ops| - 1];
      RelocationIsAffine(init, image, base, s);
      var before := Apply(init, image, base);
      if op.slot != s {
        StepOther(before, op, base, s);
      } else if op.AddBase? {
        LoadStored(before, s, (Load64(before, s) + base) % U64_SIZE);
        AffineStep(Constant(init, image, s), Factor(init, s), base);
      } else {
        LoadStored(before, s, op.value);
        AffineZero(op.value, base);
      }
    }
  }

  lemma StepOther(image: bytes, op: Op, base: u64, s: nat)
    requires op.slot + 8 <= |image| && s + 8 <= |image| && op.slot % 8 == 0 && s % 8 == 0 && op.slot != s
    ensures Load64(Step(image, op, base), s) == Load64(image, s)
  {
    hide Load64, Store64;
    Disjoint(op.slot, s);
    match op
    case AddBase(t) => LoadOther(image, t, (Load64(image, t) + base) % U64_SIZE, s);
    case Assign(t, v) => LoadOther(image, t, v, s);
  }

  lemma Disjoint(s: nat, t: nat)
    requires s % 8 == 0 && t % 8 == 0 && s != t
    ensures s + 8 <= t || t + 8 <= s
  {
  }

  /** Two loads of the same file at different bases: the slot moves by Factor times the distance. */
  lemma TwoLoads(ops: seq<Op>, image: bytes, b1: u64, b2: u64, s: nat)
    requires InImage(ops, |image|) && SlotsAligned(ops) && s % 8 == 0 && s + 8 <= |image|
    ensures (Load64(Apply(ops, image, b2), s) - Load64(Apply(ops, image, b1), s)) % U64_SIZE
         == (Factor(ops, s) * (b2 - b1)) % U64_SIZE
  {
    hide Load64, Apply, Constant, Factor;
    RelocationIsAffine(ops, image, b1, s);
    RelocationIsAffine(ops, image, b2, s);
    AffineDistance(Constant(ops, image, s), Factor(ops, s), b1, b2);
  }

  lemma AffineDistance(c: u64, k: nat, b1: u64, b2: u64)
    ensures (Affine(c, k, b2) - Affine(c, k, b1)) % U64_SIZE == (k * (b2 - b1)) % U64_SIZE
  {
    var x, y := k * b2, k * b1;
    assert k * (b2 - b1) == x - y;
    ModDifference(c + x, c + y);
  }

  lemma ModDifference(x: int, y: int)
    ensures (x % U64_SIZE - y % U64_SIZE) % U64_SIZE == (x - y) % U64_SIZE
  {
  }

  /** Only the factor modulo 2^64 matters. */
  lemma AffineModulo(c: u64, k: nat, base: u64)
    ensures Affine(c, k, base) == Affine(c, k % U64_SIZE, base)
  {
    var q, j := k / U64_SIZE, k % U64_SIZE;
    assert k == q * U64_SIZE + j;
    assert k * base == (q * base) * U64_SIZE + j * base;
    AddMultiple(c + j * base, q * base);
  }

  lemma AddMultiple(x: int, q: int)
    ensures (x + q * U64_SIZE) % U64_SIZE == x % U64_SIZE
  {
  }

  /** The unit base tells the factors apart. */
  lemma AffineUnit(c: u64, k: nat, j: nat)
    requires j < U64_SIZE && k % U64_SIZE != j
    ensures Affine(c, k, 1) != Affine(c, j, 1)
  {
    AffineModulo(c, k, 1);
  }

  /** The slope alone: a slot is its constant + j * base for every base exactly when its factor is j modulo
      2^64.  What the constant is, the lemmas about each kind of slot say. */
  lemma FactorExactly(ops: seq<Op>, image: bytes, s: nat, j: nat)
    requires InImage(ops, |image|) && SlotsAligned(ops) && s % 8 == 0 && s + 8 <= |image| && j < U64_SIZE
    ensures (forall base: u64 :: Load64(Apply(ops, image, base), s) == Affine(Constant(ops, image, s), j, base))
       <==> Factor(ops, s) % U64_SIZE == j
  {
    hide Load64, Apply, Constant, Factor, Affine;
    var c, k := Constant(ops, image, s), Factor(ops, s);
    if k % U64_SIZE == j {
      forall base: u64
        ensures Load64(Apply(ops, image, base), s) == Affine(c, j, base)
      {
        RelocationIsAffine(ops, image, base, s);
        AffineModulo(c, k, base);
      }
    } else {
      RelocationIsAffine(ops, image, 1, s);
      AffineUnit(c, k, j);
    }
  }

  // ------------------------------------------------------------- the factor

  /** Position i adds the base to s, and no later write overwrites s. */
  ghost predicate Surviving(ops: seq<Op>, s: nat, i: nat)
  {
    0 <= i < |ops| && ops[i] == AddBase(s) && forall l :: i < l < |ops| && ops[l].slot == s ==> ops[l].AddBase?
  }

  /** The factor counts the surviving additions. */
  lemma {:induction false} FactorCounts(ops: seq<Op>, s: nat)
    ensures Factor(ops, s) == |set i | 0 <= i < |ops| && Surviving(ops, s, i)|
  {
    var now := set i | 0 <= i < |ops| && Surviving(ops, s, i);
    if ops == [] {
      assert now == {};
    } else {
      var n := |ops| - 1;
      var init := ops[..n];
      FactorCounts(init, s);
      var earlier := set i | 0 <= i < |init| && Surviving(init, s, i);
      if ops[n].slot != s {
        forall i | 0 <= i < n ensures Surviving(ops, s, i) <==> Surviving(init, s, i) { SurvivingStep(ops, s, i); }
        assert now == earlier;
      } else if ops[n].AddBase? {
        forall i | 0 <= i < n ensures Surviving(ops, s, i) <==> Surviving(init, s, i) { SurvivingStep(ops, s, i); }
        assert Surviving(ops, s, n);
        assert now == earlier + {n};
      } else {
        forall i | 0 <= i < |ops| ensures !Surviving(ops, s, i) {}
        assert now == {};
      }
    }
  }

  lemma SurvivingStep(ops: seq<Op>, s: nat, i: nat)
    requires 0 <= i < |ops| - 1 && (ops[|ops| - 1].slot != s || ops[|ops| - 1].AddBase?)
    ensures Surviving(ops, s, i) <==> Surviving(ops[..|ops| - 1], s, i)
  {
    var init := ops[..|ops| - 1];
    assert forall l :: 0 <= l < |init| ==> init[l] == ops[l];
    if Surviving(init, s, i) {
      forall l | i < l < |ops| && ops[l].slot == s ensures ops[l].AddBase? {
        if l < |init| { assert init[l].AddBase?; }
      }
    }
  }

  /** The places of the list where the base is added to the slot. */
  ghost function AddPlaces(ops: seq<Op>, s: nat): set<int>
  {
    set l | 0 <= l < |ops| && ops[l] == AddBase(s)
  }

  /** A slot that only GOT and RELATIVE writes touch is moved by the base, for every base, exactly when
      the number of those writes is 1 modulo 2^64. */
  lemma PointerRelocatedExactly(ops: seq<Op>, image: bytes, s: nat)
    requires InImage(ops, |image|) && SlotsAligned(ops) && s % 8 == 0 && s + 8 <= |image|
    requires forall i :: 0 <= i < |ops| && ops[i].slot == s ==> ops[i].AddBase?
    ensures (forall base: u64 :: Load64(Apply(ops, image, base), s) == (Load64(image, s) + base) % U64_SIZE)
       <==> |AddPlaces(ops, s)| % U64_SIZE == 1
  {
    hide Load64, Apply, Constant, Factor, Affine, InImage, SlotsAligned, Surviving;
    FactorExactly(ops, image, s, 1);
    ConstantIsOriginal(ops, image, s);
    FactorCounts(ops, s);
    AllSurvive(ops, s);
    var c := Load64(image, s);
    forall base: u64
      ensures Affine(c, 1, base) == (c + base) % U64_SIZE
    {
      AffineUnitFactor(c, base);
    }
  }

  lemma AffineUnitFactor(c: u64, base: u64)
    ensures Affine(c, 1, base) == (c + base) % U64_SIZE
  {
  }

  lemma AllSurvive(ops: seq<Op>, s: nat)
    requires forall i :: 0 <= i < |ops| && ops[i].slot == s ==> ops[i].AddBase?
    ensures (set i | 0 <= i < |ops| && Surviving(ops, s, i)) == AddPlaces(ops, s)
  {
  }

  lemma {:induction false} ConstantIsOriginal(ops: seq<Op>, image: bytes, s: nat)
    requires s + 8 <= |image| && forall i :: 0 <= i < |ops| && ops[i].slot == s ==> ops[i].AddBase?
    ensures Constant(ops, image, s) == Load64(image, s)
  {
    hide Load64;
    if ops != [] {
      ConstantIsOriginal(ops[..|ops| - 1], image, s);
    }
  }

  /** GOT and RELATIVE targets disjoint and unrepeated: the base is added at most once. */
  lemma {:induction false} FactorAtMostOne(ops: seq<Op>, s: nat)
    requires forall i, j :: 0 <= i < j < |ops| && ops[i].AddBase? && ops[j].AddBase? ==> ops[i].slot != ops[j].slot
    ensures Factor(ops, s) <= 1
    ensures Factor(ops, s) == 1 ==> exists i :: 0 <= i < |ops| && ops[i] == AddBase(s)
  {
    if ops != [] {
      FactorAtMostOne(ops[..|ops| - 1], s);
      if ops[|ops| - 1] == AddBase(s) {
        assert Factor(ops[..|ops| - 1], s) == 0;
      }
    }
  }

  /** Bytes outside all slots are not touched. */
  lemma {:induction false} RelocationFrame(ops: seq<Op>, image: bytes, base: u64, x: nat)
    requires InImage(ops, |image|) && x < |image|
    requires forall i :: 0 <= i < |ops| ==> !(ops[i].slot <= x < ops[i].slot + 8)
    ensures Apply(ops, image, base)[x] == image[x]
  {
    hide Load64;
    if ops != [] {
      RelocationFrame(ops[..|ops| - 1], image, base, x);
    }
  }
}

/** The memory-type query of hypervisor/ept.cc: one scan over the MTRR table with
    precedence rules and early exits. */
module MemoryType {
  import opened Bits
  import opened Mtrr
  import opened Paging

  const UC: u8 := 0
  const WC: u8 := 1
  const WT: u8 := 4
  const WP: u8 := 5
  const WB: u8 := 6
  /** MEMORY_TYPE_INVALID: the query found no single type. */
  const INVALID: u8 := 0xFF

  /** UC, WC, WT, WP and WB, as section 11.3 of the manual encodes them. */
  predicate ValidType(t: nat) { t == 0 || t == 1 || t == 4 || t == 5 || t == 6 }

  /** How the scan combines the type found so far with the next matching range. */
  function Merge(result: u8, typ: u8): u8
  {
    if typ == WT && result == WB then WT
    else if typ == WB && result == WT then WT
    else typ
  }

  /** The scan from table index `i` on, having found `result` so far. */
  function ScanFrom(t: seq<Entry>, d: u8, start: u64, size: u64, i: nat, result: u8): u8
    requires i <= |t|
    decreases |t| - i
  {
    if i == |t| || !t[i].enabled then
      if result == INVALID then d else result
    else if !t[i].Contains(start) then
      ScanFrom(t, d, start, size, i + 1, result)
    else if (start + size - 1) % U64_SIZE >= t[i].end then
      INVALID
    else if t[i].fixed then
      t[i].typ
    else if t[i].typ == UC then
      UC
    else
      ScanFrom(t, d, start, size, i + 1, Merge(result, t[i].typ))
  }

  function Scan(t: seq<Entry>, d: u8, start: u64, size: u64): u8
  {
    ScanFrom(t, d, start, size, 0, INVALID)
  }

  /** `ept_get_memory_type`. */
  method GetMemoryType(s: MtrrState, start: u64, size: u64) returns (r: u8)
    requires s.Valid()
    ensures r == Scan(s.table[..], s.defaultType, start, size)
  {
    var result: u8 := INVALID;
    var i := 0;
    ghost var t := s.table[..];
    while i < MAX_MTRRS
      invariant i <= MAX_MTRRS
      invariant Scan(t, s.defaultType, start, size) == ScanFrom(t, s.defaultType, start, size, i, result)
    {
      var mtrr := s.table[i];
      if !mtrr.enabled { break; }
      if start < mtrr.begin || start >= mtrr.end {
        i := i + 1;
        continue;
      }
      if (start + size - 1) % U64_SIZE >= mtrr.end { return INVALID; }
      if mtrr.fixed { return mtrr.typ; }
      if mtrr.typ == UC { return UC; }
      if mtrr.typ == WT && result == WB {
        result := WT;
      } else if mtrr.typ == WB && result == WT {
        result := WT;
      } else {
        result := mtrr.typ;
      }
      i := i + 1;
    }
    if result == INVALID { return s.defaultType; }
    return result;
  }

  /** Whatever follows a disabled entry is never read. */
  lemma {:induction false} ScanStops(t: seq<Entry>, n: nat, d: u8, start: u64, size: u64, i: nat, result: u8)
    requires i <= n <= |t| && (n < |t| ==> !t[n].enabled)
    ensures ScanFrom(t, d, start, size, i, result) == ScanFrom(t[..n], d, start, size, i, result)
    decreases n - i
  {
    if i < n && t[i].enabled {
      ScanStops(t, n, d, start, size, i + 1, result);
      ScanStops(t, n, d, start, size, i + 1, Merge(result, t[i].typ));
    }
  }

  // ----------------------------------------------------- the declarative rule

  /** What every table the initialiser produces looks like: enabled, page-aligned entries with
      valid types. */
  ghost predicate Proper(t: seq<Entry>)
  {
    forall i :: 0 <= i < |t| ==> t[i].enabled && ValidType(t[i].typ) && t[i].begin % PAGE_4K == 0 && t[i].end % PAGE_4K == 0
  }

  /** Types of the variable ranges from index `i` on that contain `a`. */
  ghost function VariableTypes(t: seq<Entry>, i: nat, a: nat): set<u8>
  {
    set k | i <= k < |t| && !t[k].fixed && t[k].Contains(a) :: t[k].typ
  }

  ghost predicate FixedMisses(t: seq<Entry>, i: nat, a: nat)
  {
    forall k :: i <= k < |t| && t[k].fixed ==> !t[k].Contains(a)
  }

  /** The overlaps for which Intel SDM Vol. 3A section 11.11.4.1 defines the result. */
  ghost predicate DefinedOverlap(types: set<u8>)
  {
    types == {} || 0 in types || types <= {4, 6} || exists x :: types == {x}
  }

  /** The precedence rule of section 11.11.4.1 for the variable ranges that match an address: uncacheable (0)
      wins, write-through (4) wins over write-back (6). */
  ghost predicate Precedence(types: set<u8>, d: u8, r: u8)
  {
    && DefinedOverlap(types)
    && (types == {} ==> r == d)
    && (forall x :: types == {x} ==> r == x)
    && (0 in types ==> r == 0)
    && (types == {4, 6} ==> r == 4)
  }

  /** The rule determines the type. */
  lemma PrecedenceUnique(types: set<u8>, d: u8, r: u8, r': u8)
    requires Precedence(types, d, r) && Precedence(types, d, r')
    ensures r == r'
  {
    if types != {} && UC !in types && types != {WT, WB} && types <= {WT, WB} {
      assert types == {WT} || types == {WB} by {
        if WT in types { assert WB !in types; assert types == {WT}; } else { assert types == {WB}; }
      }
    }
  }

  /** A page-aligned page lies inside a page-aligned range as soon as it starts in it. */
  lemma PageInside(e: Entry, a: u64)
    requires a % PAGE_4K == 0 && e.end % PAGE_4K == 0 && e.Contains(a)
    ensures a + PAGE_4K - 1 < e.end && (a + PAGE_4K - 1) % U64_SIZE == a + PAGE_4K - 1
  {
    assert e.end - a >= PAGE_4K;
  }

  /** The types from index `i` on are the one at `i`, if it matches, and the later ones. */
  lemma VariableTypesStep(t: seq<Entry>, i: nat, a: nat)
    requires i < |t|
    ensures VariableTypes(t, i, a)
         == VariableTypes(t, i + 1, a) + if !t[i].fixed && t[i].Contains(a) then {t[i].typ} else {}
  {
    var rest := VariableTypes(t, i + 1, a);
    forall x | x in VariableTypes(t, i, a) && x !in rest
      ensures !t[i].fixed && t[i].Contains(a) && x == t[i].typ
    {
      var k :| i <= k < |t| && !t[k].fixed && t[k].Contains(a) && t[k].typ == x;
    }
  }

  /** A matching uncacheable range decides, wherever it stands in the table. */
  lemma {:induction false} ScanUncached(t: seq<Entry>, d: u8, a: u64, i: nat, result: u8)
    requires i <= |t| && Proper(t) && a % PAGE_4K == 0 && FixedMisses(t, i, a)
    requires UC in VariableTypes(t, i, a)
    ensures ScanFrom(t, d, a, PAGE_4K, i, result) == UC
    decreases |t| - i
  {
    if i < |t| {
      VariableTypesStep(t, i, a);
      if !t[i].Contains(a) {
        ScanUncached(t, d, a, i + 1, result);
      } else {
        PageInside(t[i], a);
        if t[i].typ != UC {
          ScanUncached(t, d, a, i + 1, Merge(result, t[i].typ));
        }
      }
    }
  }

  /** Among write-through and write-back ranges, one write-through suffices. */
  lemma {:induction false} ScanWriteThrough(t: seq<Entry>, d: u8, a: u64, i: nat, result: u8)
    requires i <= |t| && Proper(t) && a % PAGE_4K == 0 && FixedMisses(t, i, a)
    requires VariableTypes(t, i, a) <= {WT, WB} && result in {INVALID, WT, WB}
    ensures ScanFrom(t, d, a, PAGE_4K, i, result)
         == if result == INVALID && VariableTypes(t, i, a) == {} then d
            else if result == WT || WT in VariableTypes(t, i, a) then WT else WB
    decreases |t| - i
  {
    if i < |t| {
      VariableTypesStep(t, i, a);
      if !t[i].Contains(a) {
        ScanWriteThrough(t, d, a, i + 1, result);
      } else {
        PageInside(t[i], a);
        ScanWriteThrough(t, d, a, i + 1, Merge(result, t[i].typ));
      }
    }
  }

  /** Ranges of one type give that type. */
  lemma {:induction false} ScanUniform(t: seq<Entry>, d: u8, a: u64, i: nat, result: u8, x: u8)
    requires i <= |t| && Proper(t) && a % PAGE_4K == 0 && FixedMisses(t, i, a)
    requires VariableTypes(t, i, a) <= {x} && result in {INVALID, x} && x != UC && x != INVALID
    ensures ScanFrom(t, d, a, PAGE_4K, i, result)
         == if result == INVALID && VariableTypes(t, i, a) == {} then d else x
    decreases |t| - i
  {
    if i < |t| {
      VariableTypesStep(t, i, a);
      if !t[i].Contains(a) {
        ScanUniform(t, d, a, i + 1, result, x);
      } else {
        PageInside(t[i], a);
        ScanUniform(t, d, a, i + 1, Merge(result, t[i].typ), x);
      }
    }
  }

  /** Where no fixed range matches, the scan of a 4 KiB page is the precedence rule. */
  lemma ScanIsPrecedence(t: seq<Entry>, d: u8, a: u64, i: nat)
    requires i <= |t| && Proper(t) && a % PAGE_4K == 0 && FixedMisses(t, i, a)
    requires DefinedOverlap(VariableTypes(t, i, a))
    ensures Precedence(VariableTypes(t, i, a), d, ScanFrom(t, d, a, PAGE_4K, i, INVALID))
  {
    var types := VariableTypes(t, i, a);
    hide ScanFrom, VariableTypes;
    if UC in types {
      ScanUncached(t, d, a, i, INVALID);
    } else if types <= {WT, WB} {
      ScanWriteThrough(t, d, a, i, INVALID);
    } else {
      var x :| types == {x};
      TypeIsValid(t, i, a, x);
      ScanUniform(t, d, a, i, INVALID, x);
    }
  }

  lemma TypeIsValid(t: seq<Entry>, i: nat, a: nat, x: u8)
    requires Proper(t) && x in VariableTypes(t, i, a)
    ensures ValidType(x)
  {
  }

  lemma VariableOrderIrrelevant(t: seq<Entry>, t': seq<Entry>, d: u8, a: u64)
    requires multiset(t) == multiset(t') && Proper(t) && a % PAGE_4K == 0
    requires FixedMisses(t, 0, a) && DefinedOverlap(VariableTypes(t, 0, a))
    ensures Scan(t, d, a, PAGE_4K) == Scan(t', d, a, PAGE_4K)
  {
    assert forall e :: e in t' <==> e in multiset(t');
    assert forall e :: e in t <==> e in multiset(t);
    assert forall i :: 0 <= i < |t'| ==> t'[i] in t;
    TypesOfMembers(t, a);
    TypesOfMembers(t', a);
    assert VariableTypes(t, 0, a) == VariableTypes(t', 0, a);
    ScanIsPrecedence(t, d, a, 0);
    ScanIsPrecedence(t', d, a, 0);
    PrecedenceUnique(VariableTypes(t, 0, a), d, Scan(t, d, a, PAGE_4K), Scan(t', d, a, PAGE_4K));
  }

  lemma TypesOfMembers(t: seq<Entry>, a: nat)
    ensures VariableTypes(t, 0, a) == set e | e in t && !e.fixed && e.Contains(a) :: e.typ
  {
  }

  /** The order of the variable ranges after the fixed ones does not matter, wherever a fixed range matches
      or the overlap of the variable ranges is defined. */
  lemma OrderIrrelevant(fixed: seq<Entry>, v: seq<Entry>, v': seq<Entry>, d: u8, a: u64)
    requires multiset(v) == multiset(v') && Proper(fixed + v) && a % PAGE_4K == 0
    requires (forall i :: 0 <= i < |fixed| ==> fixed[i].fixed) && forall i :: 0 <= i < |v| ==> !v[i].fixed
    requires Matched(fixed, a) || DefinedOverlap(VariableTypes(fixed + v, 0, a))
    ensures Scan(fixed + v, d, a, PAGE_4K) == Scan(fixed + v', d, a, PAGE_4K)
  {
    hide ScanFrom, VariableTypes, DefinedOverlap;
    var t, t' := fixed + v, fixed + v';
    PermutedProper(t, t');
    if Matched(fixed, a) {
      var k := FirstMatch(fixed, a, 0);
      ScanFixed(t, d, a, 0, k);
      ScanFixed(t', d, a, 0, k);
    } else {
      VariableOrderIrrelevant(t, t', d, a);
    }
  }

  ghost predicate Matched(t: seq<Entry>, a: nat) { exists k :: 0 <= k < |t| && t[k].Contains(a) }

  lemma PermutedProper(t: seq<Entry>, t': seq<Entry>)
    requires multiset(t) == multiset(t') && Proper(t)
    ensures Proper(t')
  {
    assert forall e :: e in t' ==> e in multiset(t');
    assert forall e :: e in multiset(t) ==> e in t;
    forall i | 0 <= i < |t'|
      ensures t'[i] in t
    {
      assert t'[i] in multiset(t');
    }
  }

  lemma {:induction false} FirstMatch(t: seq<Entry>, a: nat, i: nat) returns (k: nat)
    requires i <= |t| && Matched(t, a) && forall j :: 0 <= j < i ==> !t[j].Contains(a)
    ensures k < |t| && t[k].Contains(a) && forall j :: 0 <= j < k ==> !t[j].Contains(a)
    decreases |t| - i
  {
    if t[i].Contains(a) { k := i; } else { k := FirstMatch(t, a, i + 1); }
  }

  // ---------------------------------------------------------------- all overlaps

  /** The ranges from `i` up to and including `k` that contain `a` have type 4 or 6, write-through or
      write-back. */
  ghost predicate OnlyCached(t: seq<Entry>, a: nat, i: nat, k: nat)
  {
    forall j :: i <= j <= k && j < |t| && t[j].Contains(a) ==> t[j].typ == 4 || t[j].typ == 6
  }

  /** A write-through range contains `a`, and from it to the k-th only cached ranges do. */
  ghost predicate CachedSince(t: seq<Entry>, a: nat, i: nat, k: nat)
  {
    exists j :: i <= j <= k && j < |t| && t[j].Contains(a) && t[j].typ == 4 && OnlyCached(t, a, j, k)
  }

  /** What the scan answers for any overlap, defined or not, of ranges none of which is fixed or uncacheable:
      the type of the last that matches, but write-through if that is write-back and a write-through range
      matched before it with only these two types since. */
  lemma {:induction false} ScanLast(t: seq<Entry>, d: u8, a: u64, i: nat, k: nat, result: u8)
    requires i <= k < |t| && Proper(t) && a % PAGE_4K == 0 && t[k].Contains(a)
    requires forall j :: k < j < |t| ==> !t[j].Contains(a)
    requires forall j :: i <= j < |t| && t[j].Contains(a) ==> !t[j].fixed && t[j].typ != 0
    ensures ScanFrom(t, d, a, PAGE_4K, i, result)
         == if t[k].typ == 6 && (CachedSince(t, a, i, k) || (result == 4 && OnlyCached(t, a, i, k))) then 4 else t[k].typ
    decreases k - i
  {
    hide CachedSince, OnlyCached;
    if t[i].Contains(a) { PageInside(t[i], a); }
    CachedStep(t, a, i, k);
    if i == k {
      ScanRest(t, d, a, k + 1, Merge(result, t[k].typ));
    } else if t[i].Contains(a) {
      ScanLast(t, d, a, i + 1, k, Merge(result, t[i].typ));
    } else {
      ScanLast(t, d, a, i + 1, k, result);
    }
  }

  lemma {:induction false} ScanRest(t: seq<Entry>, d: u8, a: u64, i: nat, result: u8)
    requires i <= |t| && Proper(t) && result != INVALID && forall j :: i <= j < |t| ==> !t[j].Contains(a)
    ensures ScanFrom(t, d, a, PAGE_4K, i, result) == result
    decreases |t| - i
  {
    if i < |t| {
      ScanRest(t, d, a, i + 1, result);
    }
  }

  lemma CachedStep(t: seq<Entry>, a: nat, i: nat, k: nat)
    requires i <= k < |t|
    ensures OnlyCached(t, a, i, k)
       <==> (t[i].Contains(a) ==> t[i].typ == 4 || t[i].typ == 6) && (i < k ==> OnlyCached(t, a, i + 1, k))
    ensures CachedSince(t, a, i, k)
       <==> (t[i].Contains(a) && t[i].typ == 4 && OnlyCached(t, a, i, k)) || (i < k && CachedSince(t, a, i + 1, k))
  {
  }

  // -------------------------------------------------------------- 4 KiB pages

  /** A 4 KiB query over a proper table always finds a type: the error branch of the builder
      is never needed. */
  lemma {:induction false} SmallPageHasType(t: seq<Entry>, d: u8, a: u64, i: nat, result: u8)
    requires i <= |t| && Proper(t) && a % PAGE_4K == 0 && ValidType(d)
    requires result == INVALID || ValidType(result)
    ensures ValidType(ScanFrom(t, d, a, PAGE_4K, i, result))
    decreases |t| - i
  {
    if i < |t| {
      SmallPageHasType(t, d, a, i + 1, result);
      SmallPageHasType(t, d, a, i + 1, Merge(result, t[i].typ));
      if t[i].Contains(a) { PageInside(t[i], a); }
    }
  }

  /** The first fixed range that matches decides. */
  lemma {:induction false} ScanFixed(t: seq<Entry>, d: u8, a: u64, i: nat, k: nat)
    requires i <= k < |t| && Proper(t) && a % PAGE_4K == 0
    requires t[k].fixed && t[k].Contains(a)
    requires forall j :: i <= j < k ==> !t[j].Contains(a)
    ensures ScanFrom(t, d, a, PAGE_4K, i, INVALID) == t[k].typ
    decreases k - i
  {
    if i < k {
      ScanFixed(t, d, a, i + 1, k);
    } else {
      PageInside(t[k], a);
    }
  }

  // -------------------------------------------------------------- 2 MiB pages

  predicate InLargePage(a: nat, base: nat) { base <= a < base + PAGE_2M }

  /** Some range of the table begins or ends at `b`. */
  ghost predicate Boundary(t: seq<Entry>, b: nat)
  {
    exists i :: 0 <= i < |t| && (t[i].begin == b || t[i].end == b)
  }

  /** No range of the table begins strictly inside the 2 MiB page at `base`. */
  ghost predicate NoBeginInside(t: seq<Entry>, base: nat)
  {
    forall i :: 0 <= i < |t| ==> !(base < t[i].begin < base + PAGE_2M)
  }

  /** The whole-page query of the first 4 KiB agrees with the large query, if that one found a type. */
  lemma {:induction false} LargeQueryAtStart(t: seq<Entry>, d: u8, base: u64, i: nat, result: u8)
    requires i <= |t| && base % PAGE_2M == 0
    requires ScanFrom(t, d, base, PAGE_2M, i, result) != INVALID
    ensures ScanFrom(t, d, base, PAGE_4K, i, result) == ScanFrom(t, d, base, PAGE_2M, i, result)
    decreases |t| - i
  {
    assert base + PAGE_2M <= U64_SIZE;
    if i < |t| && t[i].enabled {
      if !t[i].Contains(base) {
        LargeQueryAtStart(t, d, base, i + 1, result);
      } else if base + PAGE_2M - 1 < t[i].end && !t[i].fixed && t[i].typ != UC {
        LargeQueryAtStart(t, d, base, i + 1, Merge(result, t[i].typ));
      }
    }
  }

  /** Between two neighbouring pages the type can only change at a boundary. */
  lemma {:induction false} SameBetweenBoundaries(t: seq<Entry>, d: u8, a: u64, i: nat, result: u8)
    requires i <= |t| && Proper(t) && a % PAGE_4K == 0 && a + PAGE_4K < U64_SIZE
    requires !Boundary(t, a + PAGE_4K)
    ensures ScanFrom(t, d, a + PAGE_4K, PAGE_4K, i, result) == ScanFrom(t, d, a, PAGE_4K, i, result)
    decreases |t| - i
  {
    if i < |t| {
      var e := t[i];
      assert e.begin != a + PAGE_4K && e.end != a + PAGE_4K;
      assert e.Contains(a) <==> e.Contains(a + PAGE_4K) by { NeighbourPages(e, a); }
      if e.Contains(a) {
        PageInside(e, a);
        PageInside(e, a + PAGE_4K);
        SameBetweenBoundaries(t, d, a, i + 1, Merge(result, e.typ));
      } else {
        SameBetweenBoundaries(t, d, a, i + 1, result);
      }
    }
  }

  lemma NeighbourPages(e: Entry, a: nat)
    requires a % PAGE_4K == 0 && e.begin % PAGE_4K == 0 && e.end % PAGE_4K == 0
    requires e.begin != a + PAGE_4K && e.end != a + PAGE_4K
    ensures e.Contains(a) <==> e.Contains(a + PAGE_4K)
  {
  }

  /** The 4 KiB pages of a 2 MiB page are the 512 multiples above its base. */
  lemma PageOfLargePage(base: nat, k: nat)
    requires base % PAGE_2M == 0
    ensures (base + k * PAGE_4K) % PAGE_4K == 0
  {
    assert base == base / PAGE_2M * PAGE_2M;
    DivModUnique(base + k * PAGE_4K, PAGE_4K, base / PAGE_2M * ENTRIES + k, 0);
  }

  lemma PageIndex(a: nat, base: nat) returns (k: nat)
    requires base % PAGE_2M == 0 && InLargePage(a, base) && a % PAGE_4K == 0
    ensures k < ENTRIES && a == base + k * PAGE_4K && a + PAGE_4K <= base + PAGE_2M
  {
    var n, p := base / PAGE_2M, a / PAGE_4K;
    assert base == n * PAGE_2M && a == p * PAGE_4K;
    k := p - n * ENTRIES;
  }

  /** Every boundary strictly inside the large page has the type `r`. */
  ghost predicate BoundariesAgree(t: seq<Entry>, d: u8, base: nat, r: u8)
  {
    forall b: u64 :: base < b < base + PAGE_2M && Boundary(t, b) ==> Scan(t, d, b, PAGE_4K) == r
  }

  /** Exactly when a 2 MiB leaf is right: if the large query finds a type, all 512 pages in it
      have that type if and only if the pages at the range boundaries strictly inside it do. */
  lemma LargePageExactly(t: seq<Entry>, d: u8, base: u64)
    requires Proper(t) && base % PAGE_2M == 0 && base + PAGE_2M < U64_SIZE
    requires Scan(t, d, base, PAGE_2M) != INVALID
    ensures (forall a: u64 :: InLargePage(a, base) && a % PAGE_4K == 0 ==> Scan(t, d, a, PAGE_4K) == Scan(t, d, base, PAGE_2M))
       <==> BoundariesAgree(t, d, base, Scan(t, d, base, PAGE_2M))
  {
    hide Scan;
    var r := Scan(t, d, base, PAGE_2M);
    if BoundariesAgree(t, d, base, r) {
      forall a: u64 | InLargePage(a, base) && a % PAGE_4K == 0
        ensures Scan(t, d, a, PAGE_4K) == r
      {
        var k := PageIndex(a, base);
        LargePageInduction(t, d, base, k);
      }
    }
    forall b: u64 | base < b < base + PAGE_2M && Boundary(t, b)
      ensures b % PAGE_4K == 0 && InLargePage(b, base)
    {
    }
  }

  lemma {:induction false} LargePageInduction(t: seq<Entry>, d: u8, base: u64, k: nat)
    requires Proper(t) && base % PAGE_2M == 0 && base + PAGE_2M < U64_SIZE && k < ENTRIES
    requires Scan(t, d, base, PAGE_2M) != INVALID && BoundariesAgree(t, d, base, Scan(t, d, base, PAGE_2M))
    ensures Scan(t, d, base + k * PAGE_4K, PAGE_4K) == Scan(t, d, base, PAGE_2M)
  {
    if k == 0 {
      LargeQueryAtStart(t, d, base, 0, INVALID);
    } else {
      var a := base + (k - 1) * PAGE_4K;
      PageOfLargePage(base, k - 1);
      assert base + k * PAGE_4K == a + PAGE_4K;
      if !Boundary(t, a + PAGE_4K) {
        LargePageInduction(t, d, base, k - 1);
        SameBetweenBoundaries(t, d, a, 0, INVALID);
      }
    }
  }

  /** Large-page soundness: if no range begins strictly inside the page, the large query's answer
      holds for every 4 KiB page of it, early exits notwithstanding. */
  lemma {:induction false} LargePageSound(t: seq<Entry>, d: u8, base: u64, a: u64, i: nat, result: u8)
    requires i <= |t| && base % PAGE_2M == 0 && base + PAGE_2M < U64_SIZE && NoBeginInside(t, base)
    requires InLargePage(a, base) && a % PAGE_4K == 0
    requires ScanFrom(t, d, base, PAGE_2M, i, result) != INVALID
    ensures ScanFrom(t, d, a, PAGE_4K, i, result) == ScanFrom(t, d, base, PAGE_2M, i, result)
    decreases |t| - i
  {
    if i < |t| && t[i].enabled {
      var _ := PageIndex(a, base);
      if !t[i].Contains(base) {
        LargePageSound(t, d, base, a, i + 1, result);
      } else if base + PAGE_2M - 1 < t[i].end && !t[i].fixed && t[i].typ != UC {
        LargePageSound(t, d, base, a, i + 1, Merge(result, t[i].typ));
      }
    }
  }

  /** Why the condition is needed: an uncacheable range in the second half of a 2 MiB page is
      missed by the large query, which answers with the default type. */
  lemma LargePageMissesInnerRange()
    ensures var t := [Entry(true, false, UC, 0x30_0000, 0x40_0000)];
            && Proper(t)
            && Scan(t, WB, PAGE_2M, PAGE_2M) == WB
            && Scan(t, WB, 0x30_0000, PAGE_4K) == UC
            && InLargePage(0x30_0000, PAGE_2M)
  {
    var t := [Entry(true, false, UC, 0x30_0000, 0x40_0000)];
    assert ScanFrom(t, WB, PAGE_2M, PAGE_2M, 1, INVALID) == WB;
  }
}

/** The page allocator of loader/efi/allocator.cc: a table of allocations, against the ledger the
    firmware keeps of the pages it has handed out. */
module Allocator {
  import opened Bits
  import opened Wrappers
  import opened EfiCore

  const ALLOCATIONS_MAX: nat := 4096
  /** `_stosb(efi_allocations, 0, ALLOCATIONS_MAX)` clears 4096 bytes, of 16 bytes an entry. */
  const CLEARED_ENTRIES: nat := ALLOCATIONS_MAX / 16

  type Address = u64
  const NULL: Address := 0

  /** One element of `efi_allocations`. */
  datatype Slot = Slot(address: Address, pages: u64)

  const FREE_SLOT: Slot := Slot(NULL, 0)

  /** The calls that reach the firmware. */
  datatype Event = Allocated(address: Address, pages: u64) | Freed(address: Address, pages: u64)

  /** What the firmware has handed out and not got back: address to page count. */
  type Ledger = map<Address, u64>

  // --------------------------------------------------------------- one call each

  /** The first free slot from index i on. */
  function FirstFree(table: seq<Slot>, i: nat): (k: nat)
    requires i <= |table|
    ensures i <= k <= |table|
    ensures k < |table| ==> table[k].address == NULL
    ensures forall j :: i <= j < k ==> table[j].address != NULL
    decreases |table| - i
  {
    if i == |table| || table[i].address == NULL then i else FirstFree(table, i + 1)
  }

  /** The table after `efi_allocate`, given what the firmware answers: None is a failure, which
      leaves the address null but the page count set. */
  function Allocate(table: seq<Slot>, size: u64, reply: Option<Address>): seq<Slot>
  {
    var k := FirstFree(table, 0);
    if k == |table| then table
    else table[k := Slot(if reply.Some? then reply.value else NULL, NumPages(size))]
  }

  /** The address `efi_allocate` returns. */
  function AllocateResult(table: seq<Slot>, reply: Option<Address>): Address
  {
    if FirstFree(table, 0) == |table| || reply.None? then NULL else reply.value
  }

  /** The slot after `efi_deallocate(address)`. */
  function FreeSlot(e: Slot, address: Address): Slot { if e.address == address then FREE_SLOT else e }

  function Deallocate(table: seq<Slot>, address: Address): seq<Slot>
  {
    seq<Slot>(|table|, i requires 0 <= i < |table| => FreeSlot(table[i], address))
  }

  /** The frees `efi_deallocate` sends to the firmware, in table order. */
  function Frees(table: seq<Slot>, address: Address, n: nat): seq<Event>
    requires n <= |table|
  {
    if n == 0 then []
    else Frees(table, address, n - 1) + if table[n - 1].address == address then [Freed(address, table[n - 1].pages)] else []
  }

  /** Slot by slot: an allocation fills the first slot with a null address, and only that one... */
  lemma AllocateSlots(table: seq<Slot>, size: u64, reply: Option<Address>, i: nat)
    requires i < |table|
    ensures |Allocate(table, size, reply)| == |table|
    ensures Allocate(table, size, reply)[i]
         == if table[i].address == 0 && forall j :: 0 <= j < i ==> table[j].address != 0
            then Slot(if reply.Some? then reply.value else 0, NumPages(size)) else table[i]
  {
  }

  /** ... and a deallocation zeroes every slot with the address. */
  lemma DeallocateSlots(table: seq<Slot>, address: Address, i: nat)
    requires i < |table|
    ensures |Deallocate(table, address)| == |table|
    ensures Deallocate(table, address)[i] == if table[i].address == address then Slot(0, 0) else table[i]
  {
  }

  // ------------------------------------------------------------------- the code

  class PageAllocator {
    const table: array<Slot>
    /** Everything sent to the firmware so far. */
    ghost var log: seq<Event>

    /** `efi_allocator_init`: the firmware's pages arrive with arbitrary contents, of which only the
        first 4096 bytes are cleared. */
    constructor (garbage: seq<Slot>)
      requires |garbage| == ALLOCATIONS_MAX
      ensures Valid() && fresh(table) && log == []
      ensures forall i :: 0 <= i < ALLOCATIONS_MAX ==> table[i] == if i < CLEARED_ENTRIES then FREE_SLOT else garbage[i]
    {
      table := new Slot[ALLOCATIONS_MAX](i requires 0 <= i < ALLOCATIONS_MAX => garbage[i]);
      log := [];
      new;
      forall i | 0 <= i < CLEARED_ENTRIES { table[i] := FREE_SLOT; }
    }

    predicate Valid() { table.Length == ALLOCATIONS_MAX }

    /** `efi_allocate`; `reply` is what the firmware answers if it is asked. */
    method EfiAllocate(size: u64, reply: Option<Address>) returns (address: Address)
      requires Valid()
      modifies table, this`log
      ensures table[..] == Allocate(old(table[..]), size, reply)
      ensures address == AllocateResult(old(table[..]), reply)
      ensures log == old(log) + if address != NULL then [Allocated(address, NumPages(size))] else []
    {
      var pages := NumPages(size);
      ghost var before := table[..];
      var i := 0;
      while i < ALLOCATIONS_MAX
        invariant i <= ALLOCATIONS_MAX && table[..] == before && log == old(log)
        invariant FirstFree(before, 0) == FirstFree(before, i)
      {
        if table[i].address != NULL {
          i := i + 1;
          continue;
        }
        assert FirstFree(before, 0) == i;
        if reply.Some? {
          table[i] := table[i].(address := reply.value);
          if reply.value != NULL { log := log + [Allocated(reply.value, pages)]; }
        }
        table[i] := table[i].(pages := pages);
        address := table[i].address;
        assert table[..] == Allocate(before, size, reply);
        return;
      }
      address := NULL;
    }

    /** `efi_deallocate`: every slot with the address is freed. */
    method EfiDeallocate(address: Address)
      requires Valid() && address != NULL
      modifies table, this`log
      ensures table[..] == Deallocate(old(table[..]), address)
      ensures log == old(log) + Frees(old(table[..]), address, ALLOCATIONS_MAX)
    {
      ghost var before := table[..];
      var i := 0;
      while i < ALLOCATIONS_MAX
        invariant i <= ALLOCATIONS_MAX
        invariant forall j :: 0 <= j < i ==> table[j] == FreeSlot(before[j], address)
        invariant forall j :: i <= j < ALLOCATIONS_MAX ==> table[j] == before[j]
        invariant log == old(log) + Frees(before, address, i)
      {
        if table[i].address == address {
          log := log + [Freed(table[i].address, table[i].pages)];
          table[i] := Slot(NULL, 0);
        }
        i := i + 1;
      }
      assert table[..] == Deallocate(before, address);
    }
  }

  /** The table starts all-null exactly when the part that is not cleared happened to be null. */
  lemma InitExactly(garbage: seq<Slot>, table: seq<Slot>)
    requires |garbage| == |table| == ALLOCATIONS_MAX
    requires forall i :: 0 <= i < ALLOCATIONS_MAX ==> table[i] == if i < CLEARED_ENTRIES then FREE_SLOT else garbage[i]
    ensures AllNull(table) <==> forall i :: 256 <= i < 4096 ==> garbage[i].address == 0
  {
    if AllNull(table) {
      forall i | CLEARED_ENTRIES <= i < ALLOCATIONS_MAX ensures garbage[i].address == NULL {
        assert table[i].address == NULL;
      }
    }
  }

  ghost predicate AllNull(table: seq<Slot>)
  {
    forall i :: 0 <= i < |table| ==> table[i].address == NULL
  }

  // ------------------------------------------------------------------- every run

  datatype Call = Alloc(size: u64, reply: Option<Address>) | Free(address: Address)

  datatype State = State(table: seq<Slot>, ledger: Ledger, log: seq<Event>)

  /** Outstanding allocations after one firmware call. */
  function Account(ledger: Ledger, e: Event): Ledger
  {
    match e
    case Allocated(a, p) => ledger[a := p]
    case Freed(a, p) => ledger - {a}
  }

  function AccountAll(ledger: Ledger, events: seq<Event>): Ledger
  {
    if events == [] then ledger else Account(AccountAll(ledger, events[..|events| - 1]), events[|events| - 1])
  }

  /** The firmware calls one call makes. */
  function EventsOf(table: seq<Slot>, c: Call): seq<Event>
  {
    match c
    case Alloc(size, reply) =>
      var a := AllocateResult(table, reply);
      if a != NULL then [Allocated(a, NumPages(size))] else []
    case Free(a) => Frees(table, a, |table|)
  }

  function TableAfter(table: seq<Slot>, c: Call): seq<Slot>
  {
    match c
    case Alloc(size, reply) => Allocate(table, size, reply)
    case Free(a) => Deallocate(table, a)
  }

  function Next(s: State, c: Call): State
  {
    var events := EventsOf(s.table, c);
    State(TableAfter(s.table, c), AccountAll(s.ledger, events), s.log + events)
  }

  function Run(s: State, calls: seq<Call>): State
  {
    if calls == [] then s else Next(Run(s, calls[..|calls| - 1]), calls[|calls| - 1])
  }

  /** What the firmware and the callers promise: new pages are none that are still out, and null is
      never passed to deallocate. */
  predicate Allowed(s: State, c: Call)
  {
    match c
    case Alloc(_, reply) => reply.Some? ==> reply.value != NULL && reply.value !in s.ledger
    case Free(a) => a != NULL
  }

  ghost predicate AllowedRun(s: State, calls: seq<Call>)
  {
    forall n :: 0 <= n < |calls| ==> Allowed(Run(s, calls[..n]), calls[n])
  }

  /** The table and the ledger say the same: live slots and outstanding allocations correspond one to
      one, with equal page counts. */
  ghost predicate InStep(table: seq<Slot>, ledger: Ledger)
  {
    && (forall i :: 0 <= i < |table| && table[i].address != NULL ==>
          table[i].address in ledger && ledger[table[i].address] == table[i].pages)
    && (forall i, j :: 0 <= i < j < |table| && table[i].address != NULL ==> table[i].address != table[j].address)
    && (forall a :: a in ledger ==> a != NULL && Holds(table, a))
  }

  /** Some slot of the table holds the address. */
  ghost predicate Holds(table: seq<Slot>, a: Address)
  {
    exists i :: 0 <= i < |table| && table[i].address == a
  }

  /** Every free in the log returns an allocation that was out, with its own page count, and every
      allocation in the log was of pages that were not out. */
  ghost predicate Sound(log: seq<Event>)
  {
    forall n :: 0 <= n < |log| ==> SoundAt(AccountAll(map[], log[..n]), log[n])
  }

  predicate SoundAt(ledger: Ledger, e: Event)
  {
    match e
    case Allocated(a, _) => a !in ledger
    case Freed(a, p) => a in ledger && ledger[a] == p
  }

  ghost predicate Good(s: State)
  {
    InStep(s.table, s.ledger) && Sound(s.log) && s.ledger == AccountAll(map[], s.log)
  }

  /** With table and ledger in step, a free reaches at most one slot. */
  lemma {:induction false} FreesOne(table: seq<Slot>, ledger: Ledger, a: Address, n: nat)
    requires InStep(table, ledger) && a != NULL && n <= |table|
    ensures (forall i :: 0 <= i < n ==> table[i].address != a) ==> Frees(table, a, n) == []
    ensures forall i :: 0 <= i < n && table[i].address == a ==> Frees(table, a, n) == [Freed(a, table[i].pages)]
  {
    if n > 0 {
      FreesOne(table, ledger, a, n - 1);
    }
  }

  lemma SoundExtend(log: seq<Event>, e: Event)
    requires Sound(log) && SoundAt(AccountAll(map[], log), e)
    ensures Sound(log + [e]) && AccountAll(map[], log + [e]) == Account(AccountAll(map[], log), e)
  {
    var log' := log + [e];
    assert log'[..|log'| - 1] == log;
    forall n | 0 <= n < |log'| ensures SoundAt(AccountAll(map[], log'[..n]), log'[n]) {
      if n < |log| { assert log'[..n] == log[..n]; } else { assert log'[..n] == log; }
    }
  }

  lemma NextAlloc(s: State, size: u64, reply: Option<Address>)
    requires Good(s) && Allowed(s, Alloc(size, reply))
    ensures Good(Next(s, Alloc(size, reply)))
  {
    hide InStep;
    var a := AllocateResult(s.table, reply);
    var s' := Next(s, Alloc(size, reply));
    if a == NULL {
      assert s'.log == s.log && s'.ledger == s.ledger;
      FailedAllocInStep(s.table, s.ledger, size, reply);
    } else {
      var e := Allocated(a, NumPages(size));
      SingleEvent(s.ledger, e);
      SoundExtend(s.log, e);
      AllocInStep(s.table, s.ledger, size, a);
    }
  }

  lemma SingleEvent(ledger: Ledger, e: Event)
    ensures AccountAll(ledger, [e]) == Account(ledger, e)
  {
    assert [e][..0] == [];
  }

  lemma FailedAllocInStep(table: seq<Slot>, ledger: Ledger, size: u64, reply: Option<Address>)
    requires InStep(table, ledger) && AllocateResult(table, reply) == NULL
    ensures InStep(Allocate(table, size, reply), ledger)
  {
    var table' := Allocate(table, size, reply);
    assert forall i :: 0 <= i < |table| ==> table'[i].address == table[i].address;
    forall b | b in ledger ensures Holds(table', b) {
      var i :| 0 <= i < |table| && table[i].address == b;
      assert table'[i].address == b;
    }
  }

  lemma AllocInStep(table: seq<Slot>, ledger: Ledger, size: u64, a: Address)
    requires InStep(table, ledger) && a != NULL && a !in ledger && FirstFree(table, 0) < |table|
    ensures InStep(table[FirstFree(table, 0) := Slot(a, NumPages(size))], ledger[a := NumPages(size)])
  {
    var k := FirstFree(table, 0);
    var table' := table[k := Slot(a, NumPages(size))];
    hide FirstFree, NumPages;
    assert table'[k].address == a;
    forall b | b in ledger ensures Holds(table', b) {
      var i :| 0 <= i < |table| && table[i].address == b;
      assert table'[i].address == b;
    }
  }

  lemma NextFree(s: State, a: Address)
    requires Good(s) && a != NULL
    ensures Good(Next(s, Free(a)))
    ensures a !in Next(s, Free(a)).ledger
  {
    FreesOne(s.table, s.ledger, a, |s.table|);
    FreeInStep(s.table, s.ledger, a);
    var s' := Next(s, Free(a));
    if Holds(s.table, a) {
      var i :| 0 <= i < |s.table| && s.table[i].address == a;
      var e := Freed(a, s.table[i].pages);
      SingleEvent(s.ledger, e);
      SoundExtend(s.log, e);
    } else {
      assert s'.log == s.log && s'.ledger == s.ledger;
      assert s.ledger - {a} == s.ledger;
    }
  }

  lemma FreeInStep(table: seq<Slot>, ledger: Ledger, a: Address)
    requires InStep(table, ledger) && a != NULL
    ensures InStep(Deallocate(table, a), ledger - {a})
  {
    var table' := Deallocate(table, a);
    forall b | b in ledger - {a} ensures Holds(table', b) {
      var i :| 0 <= i < |table| && table[i].address == b;
      assert table'[i].address == b;
    }
  }

  /** Over every run from an all-null table: live slots and outstanding allocations stay in bijection,
      and every free returns an allocation that was out, once, with its own page count. */
  lemma {:induction false} LedgerOverEveryRun(table: seq<Slot>, calls: seq<Call>)
    requires AllNull(table) && AllowedRun(State(table, map[], []), calls)
    ensures Good(Run(State(table, map[], []), calls))
  {
    var s := State(table, map[], []);
    if calls != [] {
      var n := |calls| - 1;
      forall m | 0 <= m < n ensures Allowed(Run(s, calls[..n][..m]), calls[..n][m]) {
        assert calls[..n][..m] == calls[..m];
      }
      LedgerOverEveryRun(table, calls[..n]);
      var mid := Run(s, calls[..n]);
      assert Allowed(mid, calls[n]);
      match calls[n] {
        case Alloc(size, reply) => NextAlloc(mid, size, reply);
        case Free(a) => NextFree(mid, a);
      }
    }
  }

  lemma {:induction false} FreesAreOf(table: seq<Slot>, a: Address, n: nat)
    requires n <= |table|
    ensures forall k :: 0 <= k < |Frees(table, a, n)| ==> Frees(table, a, n)[k].Freed? && Frees(table, a, n)[k].address == a
    ensures (exists i :: 0 <= i < n && table[i].address == a) ==> Frees(table, a, n) != []
  {
    if n > 0 {
      FreesAreOf(table, a, n - 1);
    }
  }

  /** Freeing the address of a stale entry is allowed, and returns pages that were never handed out. */
  lemma StaleEntryUnsound(table: seq<Slot>, i: nat)
    requires i < |table| && table[i].address != NULL
    ensures var calls, s := [Free(table[i].address)], State(table, map[], []);
            AllowedRun(s, calls) && !Sound(Run(s, calls).log)
  {
    hide Frees, Sound, AccountAll;
    var s, a := State(table, map[], []), table[i].address;
    var calls := [Free(a)];
    assert calls[..0] == [];
    FreesAreOf(table, a, |table|);
    var log := Frees(table, a, |table|);
    assert Run(s, calls).log == [] + log == log;
    FirstFreeUnsound(log);
  }

  /** No history begins with a free. */
  lemma FirstFreeUnsound(log: seq<Event>)
    requires log != [] && log[0].Freed?
    ensures !Sound(log)
  {
    assert log[..0] == [];
    assert !SoundAt(AccountAll(map[], log[..0]), log[0]);
  }

  /** The firmware only ever gets back what it handed out, over every run, exactly when the table
      starts all-null: a stale entry left by the initialiser can be freed without having been allocated. */
  lemma SoundRunsExactly(table: seq<Slot>)
    ensures (forall calls :: AllowedRun(State(table, map[], []), calls) ==> Sound(Run(State(table, map[], []), calls).log))
       <==> AllNull(table)
  {
    hide Sound, Run;
    var s := State(table, map[], []);
    if AllNull(table) {
      forall calls | AllowedRun(s, calls) ensures Sound(Run(s, calls).log) {
        LedgerOverEveryRun(table, calls);
      }
    } else {
      var i :| 0 <= i < |table| && table[i].address != NULL;
      StaleEntryUnsound(table, i);
    }
  }

  /** Allocate returns null exactly when the table is full or the firmware fails. */
  lemma NullExactly(table: seq<Slot>, reply: Option<Address>)
    requires reply.Some? ==> reply.value != NULL
    ensures AllocateResult(table, reply) == NULL <==> reply.None? || forall i :: 0 <= i < |table| ==> table[i].address != NULL
  {
  }
}

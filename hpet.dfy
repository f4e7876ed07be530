/**
 * The High Precision Event Timer driver: the decoding of the general
 * capabilities register, the choice of timers, and the millisecond event
 * queue the one-shot interrupt drains. Handlers are numbered; firing one is
 * recorded as a call with its data.
 */
module Hpet {
  import opened Machine
  import Acpi
  import LinkedList

  /* ---------------------------------------------------------------------- */
  /* Registers                                                              */
  /* ---------------------------------------------------------------------- */

  /** Clock period in femtoseconds: bits 63:32 of the general capabilities. */
  function ClockPeriod(general: nat): (r: nat)
    requires IsU64(general)
    ensures IsU32(r) && r * U32Modulus <= general < (r + 1) * U32Modulus
  {
    general / U32Modulus % U32Modulus
  }

  /** Number of timers: bits 12:8 of the general capabilities, plus one. */
  function NumberOfTimers(general: nat): (r: nat)
    ensures 1 <= r <= 32
  {
    general / 0x100 % 0x20 + 1
  }

  /** Bit 4 of a timer's configuration and capabilities: periodic mode. */
  predicate Periodic(capabilities: nat)
  {
    capabilities / 0x10 % 2 == 1
  }

  /** "No timer": the 0xff of `periodicTimer` and `oneShotTimer`. */
  const NoTimer: nat := 0xff

  /** The lowest of the first `n` timers that can run periodically, or `NoTimer`. */
  function FirstPeriodic(timers: seq<nat>, n: nat): nat
    requires n <= |timers|
  {
    if n == 0 then NoTimer
    else if FirstPeriodic(timers, n - 1) != NoTimer then FirstPeriodic(timers, n - 1)
    else if Periodic(timers[n - 1]) then n - 1
    else NoTimer
  }

  /** The periodic timer is the lowest-index one with the capability. */
  lemma {:induction false} FirstPeriodicMeaning(timers: seq<nat>, n: nat)
    requires n <= |timers| && n <= 32
    ensures FirstPeriodic(timers, n) == NoTimer <==> forall i :: 0 <= i < n ==> !Periodic(timers[i])
    ensures FirstPeriodic(timers, n) != NoTimer ==>
      FirstPeriodic(timers, n) < n && Periodic(timers[FirstPeriodic(timers, n)])
      && forall i :: 0 <= i < FirstPeriodic(timers, n) ==> !Periodic(timers[i])
  {
    if n > 0 {
      FirstPeriodicMeaning(timers, n - 1);
    }
  }

  /**
   * The lowest of the first `n` timers other than `periodic`, or `NoTimer`:
   * timer 0 unless it is the periodic one, then timer 1.
   */
  function FirstOther(n: nat, periodic: nat): (r: nat)
    ensures r == NoTimer <==> n == 0 || (n == 1 && periodic == 0)
    ensures r != NoTimer ==> r < n && r != periodic && (r > 0 ==> r == 1 && periodic == 0)
  {
    if n == 0 then NoTimer
    else if periodic != 0 then 0
    else if n >= 2 then 1
    else NoTimer
  }

  /** The timer loop of `initialize`: each timer's capability bits decide its role. */
  method SelectTimers(timers: seq<nat>, n: nat) returns (periodic: nat, oneShot: nat)
    requires n <= |timers| && n <= 32
    ensures periodic == FirstPeriodic(timers, n)
    ensures oneShot == FirstOther(n, periodic)
  {
    var periodicSupported := false;
    periodic, oneShot := NoTimer, NoTimer;
    for i := 0 to n
      invariant periodic == FirstPeriodic(timers, i)
      invariant periodicSupported <==> periodic != NoTimer
      invariant periodic == NoTimer || periodic < i
      invariant oneShot == FirstOther(i, periodic)
    {
      if !periodicSupported && Periodic(timers[i]) {
        periodicSupported := true;
        periodic := i;
      } else if oneShot == NoTimer {
        oneShot := i;
      }
    }
  }

  /**
   * The I/O APIC input the one-shot timer is routed to: the lowest input at
   * or above `i` that the timer's routing mask allows and that the I/O APIC
   * still has free (`tryRegisterEntry` succeeds exactly for those).
   */
  function Route(routing: nat, available: seq<nat>, i: nat): (r: Option<nat>)
    requires i <= 32
    ensures r.Some? ==> i <= r.value < 32 && BitSet(routing, r.value) && r.value in available
    ensures forall p :: i <= p < 32 && BitSet(routing, p) && p in available ==> r.Some? && r.value <= p
    decreases 32 - i
  {
    if i == 32 then None
    else if BitSet(routing, i) && i in available then Some(i)
    else Route(routing, available, i + 1)
  }

  /** `generalConfiguration & ~(1 << 1)`: legacy replacement routing off, every other bit kept. */
  function LegacyOff(configuration: nat): (r: nat)
    ensures r / 2 % 2 == 0 && r % 2 == configuration % 2 && r / 4 == configuration / 4
  {
    if configuration / 2 % 2 == 1 then configuration - 2 else configuration
  }

  /** Where the HPET table keeps `baseAddress.address`: the 36-byte header, the block id, then four bytes into the address structure. */
  const BaseAddressOffset: nat := 44

  /** The register block's physical address, read from the HPET table. */
  function BaseAddress(m: Bytes, table: nat): (r: nat)
    requires table + BaseAddressOffset + 8 <= |m|
    ensures IsU64(r)
  {
    LoadLEBelow(m, table + BaseAddressOffset, 8);
    assert ByteRange(8) == U64Modulus;
    LoadLE(m, table + BaseAddressOffset, 8)
  }

  /** The HPET table, when the firmware provides one, is long enough to hold the base address. */
  predicate TableComplete(m: Bytes, tables: seq<nat>)
    requires Acpi.AllHeadersIn(m, tables)
  {
    var found := Acpi.FindTable(m, tables, "HPET");
    found.Some? ==> found.value + BaseAddressOffset + 8 <= |m|
  }

  /** What `initialize` settles on. */
  datatype Setup = Setup(address: nat, clockPeriod: nat, numberOfTimers: nat,
                         periodicTimer: nat, oneShotTimer: nat, oneShotRouting: nat, configuration: nat)

  /**
   * `initialize` without the mapping: the HPET table looked up, the
   * capabilities decoded, the timers chosen, legacy routing turned off and
   * an I/O APIC input claimed for the one-shot timer; each failure halts.
   * The registers are parameters: the general capabilities and
   * configuration, and each timer's configuration and capabilities.
   */
  function Initialize(m: Bytes, tables: seq<nat>, general: nat, configuration: nat,
                      timers: seq<nat>, available: seq<nat>): (r: Outcome<Setup>)
    requires Acpi.AllHeadersIn(m, tables) && TableComplete(m, tables)
    requires IsU64(general) && NumberOfTimers(general) <= |timers|
    ensures Acpi.FindTable(m, tables, "HPET").None? ==> r.Hang?
    ensures (forall i :: 0 <= i < NumberOfTimers(general) ==> !Periodic(timers[i])) ==> r.Hang?
    ensures NumberOfTimers(general) == 1 ==> r.Hang?
    ensures r.Ok? ==>
      var s := r.value;
      var found := Acpi.FindTable(m, tables, "HPET");
      found.Some? && s.address == BaseAddress(m, found.value)
      && s.clockPeriod == ClockPeriod(general) && s.numberOfTimers == NumberOfTimers(general)
      && s.periodicTimer < s.numberOfTimers && Periodic(timers[s.periodicTimer])
      && (forall i :: 0 <= i < s.periodicTimer ==> !Periodic(timers[i]))
      && s.oneShotTimer < s.numberOfTimers && s.oneShotTimer != s.periodicTimer
      && BitSet(timers[s.oneShotTimer] / U32Modulus, s.oneShotRouting) && s.oneShotRouting in available
      && s.configuration == LegacyOff(configuration)
  {
    var found := Acpi.FindTable(m, tables, "HPET");
    if found.None? then Hang
    else
      var n := NumberOfTimers(general);
      var periodic := FirstPeriodic(timers, n);
      FirstPeriodicMeaning(timers, n);
      var oneShot := FirstOther(n, periodic);
      if periodic == NoTimer || oneShot == NoTimer then Hang
      else
        var route := Route(timers[oneShot] / U32Modulus, available, 0);
        if route.None? then Hang
        else Ok(Setup(BaseAddress(m, found.value), ClockPeriod(general), n,
                      periodic, oneShot, route.value, LegacyOff(configuration)))
  }

  /** One millisecond in femtoseconds. */
  const FemtosecondsPerMillisecond: nat := 1_000_000_000_000

  /** The one-shot timer as `setupOneShotMillisecond` leaves it. */
  datatype Comparator = Comparator(configuration: nat, value: nat)

  /**
   * `setupOneShotMillisecond`: the comparator one millisecond of main-counter
   * periods past the counter, modulo 2^64, with interrupts enabled and
   * routed to the claimed input.
   */
  function OneShotMillisecond(clockPeriod: nat, mainCounter: nat, routing: nat): (c: Comparator)
    requires clockPeriod > 0
    ensures IsU64(c.value)
    ensures (mainCounter + FemtosecondsPerMillisecond / clockPeriod - c.value) % U64Modulus == 0
    ensures c.configuration / 0x200 == routing % 0x20 && c.configuration % 0x200 == 4
  {
    Comparator(routing % 0x20 * 0x200 + 4, WrapU64(mainCounter + FemtosecondsPerMillisecond / clockPeriod))
  }

  /* ---------------------------------------------------------------------- */
  /* The event queue                                                         */
  /* ---------------------------------------------------------------------- */

  datatype Event = Event(tickCount: nat, handler: nat, data: nat, id: nat)

  datatype Firing = Firing(handler: nat, data: nat)

  /** The queue with the tick counter (`currentTickCount`), the next id (`currentID`) and the handlers fired so far. */
  datatype TimerState = TimerState(queue: seq<Event>, ticks: nat, nextID: nat, fired: seq<Firing>)

  /** Events in the order they fall due. */
  predicate Sorted(q: seq<Event>)
  {
    forall i, j :: 0 <= i < j < |q| ==> q[i].tickCount <= q[j].tickCount
  }

  /** Every count is a 64-bit number the tick counter has not reached yet. */
  predicate Pending(q: seq<Event>, ticks: nat)
  {
    forall i :: 0 <= i < |q| ==> IsU64(q[i].tickCount) && ticks < q[i].tickCount
  }

  /** Ids are positive, distinct and below the next one handed out. */
  predicate FreshIds(q: seq<Event>, nextID: nat)
  {
    (forall i :: 0 <= i < |q| ==> 1 <= q[i].id < nextID)
    && (forall i, j :: 0 <= i < j < |q| ==> q[i].id != q[j].id)
  }

  /** The queue between interrupts: sorted, pending and with fresh ids. */
  predicate Ready(s: TimerState)
  {
    Sorted(s.queue) && Pending(s.queue, s.ticks) && FreshIds(s.queue, s.nextID) && s.nextID >= 1
  }

  /** The start of the queue in `initialize`: empty, no ticks, ids from 1. */
  function Initial(): (s: TimerState)
    ensures Ready(s) && s.nextID == 1
  {
    TimerState([], 0, 1, [])
  }

  /** Every count less `c`, as the 64-bit `tickCount -= currentTickCount`. */
  function Rebased(q: seq<Event>, c: nat): (r: seq<Event>)
    ensures |r| == |q|
  {
    seq(|q|, i requires 0 <= i < |q| => q[i].(tickCount := WrapU64(q[i].tickCount - c)))
  }

  /**
   * `r` keeps the events of `q` at the ascending positions `idx`, with
   * their ids and handlers, and each count lowered by `c`.
   */
  predicate Picks(r: seq<Event>, q: seq<Event>, idx: seq<nat>, c: nat)
  {
    |idx| == |r|
    && (forall i :: 0 <= i < |r| ==>
          idx[i] < |q| && c < q[idx[i]].tickCount && r[i] == q[idx[i]].(tickCount := q[idx[i]].tickCount - c))
    && (forall i, j :: 0 <= i < j < |r| ==> idx[i] < idx[j])
  }

  /** Keeping some events in order, with their counts lowered alike, keeps the queue ready. */
  lemma PicksKeepReady(r: seq<Event>, q: seq<Event>, idx: seq<nat>, c: nat, ticks: nat, nextID: nat)
    requires Picks(r, q, idx, c) && Sorted(q) && Pending(q, ticks) && FreshIds(q, nextID)
    ensures Sorted(r) && Pending(r, 0) && FreshIds(r, nextID)
    ensures c == 0 ==> Pending(r, ticks)
  {
  }

  /** Under `Pending` the 64-bit subtraction never wraps: rebasing keeps every event. */
  lemma RebasedPicks(q: seq<Event>, ticks: nat)
    requires Pending(q, ticks)
    ensures Picks(Rebased(q, ticks), q, seq(|q|, i requires 0 <= i < |q| => i), ticks)
  {
  }

  /** Rebasing a ready queue to the reset tick counter keeps it ready. */
  lemma RebasedKeepsReady(q: seq<Event>, ticks: nat, nextID: nat)
    requires Sorted(q) && Pending(q, ticks) && FreshIds(q, nextID)
    ensures Sorted(Rebased(q, ticks)) && Pending(Rebased(q, ticks), 0) && FreshIds(Rebased(q, ticks), nextID)
  {
    RebasedPicks(q, ticks);
    PicksKeepReady(Rebased(q, ticks), q, seq(|q|, i requires 0 <= i < |q| => i), ticks, ticks, nextID);
  }

  /** Where the event of `ms` milliseconds belongs: before the first event that is not earlier. */
  function InsertPosition(q: seq<Event>, ms: nat): (p: nat)
    ensures p <= |q|
    ensures forall i :: 0 <= i < p ==> q[i].tickCount < ms
    ensures p < |q| ==> ms <= q[p].tickCount
    decreases |q|
  {
    if |q| == 0 then 0
    else if ms <= q[0].tickCount then 0
    else
      var p := InsertPosition(q[1..], ms);
      assert forall i :: 1 <= i < p + 1 ==> q[i] == q[1..][i - 1];
      p + 1
  }

  /** The position is the only one with earlier events before it and none after. */
  lemma InsertPositionUnique(q: seq<Event>, ms: nat, p: nat)
    requires p <= |q| && (forall i :: 0 <= i < p ==> q[i].tickCount < ms)
    requires p < |q| ==> ms <= q[p].tickCount
    ensures InsertPosition(q, ms) == p
  {
  }

  /** `List::insertAt`: an index at or past the end appends. */
  function InsertAt(q: seq<Event>, e: Event, index: nat): (r: seq<Event>)
    ensures |r| == |q| + 1
  {
    if index >= |q| then q + [e] else q[..index] + [e] + q[index..]
  }

  /** Inserting at `p` puts the event there and shifts the later ones up by one. */
  lemma InsertAtIndex(q: seq<Event>, e: Event, p: nat)
    requires p <= |q|
    ensures forall i :: 0 <= i < |q| + 1 ==>
      InsertAt(q, e, p)[i] == if i < p then q[i] else if i == p then e else q[i - 1]
    ensures InsertAt(q, e, p)[..p] + InsertAt(q, e, p)[p + 1..] == q
  {
    var r := InsertAt(q, e, p);
    if p < |q| {
      assert r[..p] == q[..p];
      assert r[p + 1..] == q[p..];
    } else {
      assert r[..p] == q;
    }
  }

  /** An event inserted at its position keeps the queue sorted. */
  lemma InsertSorted(q: seq<Event>, e: Event)
    requires Sorted(q)
    ensures Sorted(InsertAt(q, e, InsertPosition(q, e.tickCount)))
  {
    var p := InsertPosition(q, e.tickCount);
    var r := InsertAt(q, e, p);
    forall i, j | 0 <= i < j < |r| ensures r[i].tickCount <= r[j].tickCount {
      InsertAtAt(q, e, p, i);
      InsertAtAt(q, e, p, j);
      if i == p && j > p {
        assert q[p].tickCount <= q[j - 1].tickCount;
      }
    }
  }

  /** One position of an insertion. */
  lemma InsertAtAt(q: seq<Event>, e: Event, p: nat, i: nat)
    requires p <= |q| && i <= |q|
    ensures InsertAt(q, e, p)[i] == if i < p then q[i] else if i == p then e else q[i - 1]
  {
    InsertAtIndex(q, e, p);
  }

  /** An event of a new id inserted anywhere keeps the counts pending and the ids fresh. */
  lemma InsertFresh(q: seq<Event>, e: Event, p: nat)
    requires p <= |q| && Pending(q, 0) && FreshIds(q, e.id) && 0 < e.tickCount && IsU64(e.tickCount) && e.id >= 1
    ensures Pending(InsertAt(q, e, p), 0) && FreshIds(InsertAt(q, e, p), e.id + 1)
  {
    var r := InsertAt(q, e, p);
    forall i | 0 <= i < |r| ensures IsU64(r[i].tickCount) && 0 < r[i].tickCount && 1 <= r[i].id < e.id + 1 {
      InsertAtAt(q, e, p, i);
    }
    forall i, j | 0 <= i < j < |r| ensures r[i].id != r[j].id {
      InsertAtAt(q, e, p, i);
      InsertAtAt(q, e, p, j);
    }
  }

  /**
   * `createTimedEvent` as written: the new state and the id returned (0 for
   * 0 ms). The position comes from the source's loop, which can place the
   * event one entry early (see `CreateMisplaces`).
   */
  function Create(s: TimerState, ms: nat, handler: nat, data: nat): (TimerState, nat)
  {
    if ms == 0 then (s, 0)
    else
      var q := Rebased(s.queue, s.ticks);
      var e := Event(ms, handler, data, s.nextID);
      (TimerState(InsertAt(q, e, InsertPositionAsWritten(q, ms)), 0, s.nextID + 1, s.fired), s.nextID)
  }

  /** `createTimedEvent` with the corrected position, before the first event that is not earlier. */
  function FixedCreate(s: TimerState, ms: nat, handler: nat, data: nat): (TimerState, nat)
  {
    if ms == 0 then (s, 0)
    else
      var q := Rebased(s.queue, s.ticks);
      var e := Event(ms, handler, data, s.nextID);
      (TimerState(InsertAt(q, e, InsertPosition(q, ms)), 0, s.nextID + 1, s.fired), s.nextID)
  }

  /**
   * Creating an event keeps the queue ready and returns an id no queued
   * event has; the new event sits among the others, whose counts are
   * rebased to the reset tick counter and which keep their order.
   */
  lemma FixedCreateKeepsReady(s: TimerState, ms: nat, handler: nat, data: nat)
    requires Ready(s) && IsU64(ms) && ms > 0
    ensures Ready(FixedCreate(s, ms, handler, data).0)
    ensures var (s', id) := FixedCreate(s, ms, handler, data);
      id == s.nextID && id >= 1 && (forall i :: 0 <= i < |s.queue| ==> s.queue[i].id != id)
      && s'.ticks == 0 && s'.fired == s.fired
      && exists p :: 0 <= p < |s'.queue| && s'.queue[p] == Event(ms, handler, data, id)
                   && s'.queue[..p] + s'.queue[p + 1..] == Rebased(s.queue, s.ticks)
  {
    var q := Rebased(s.queue, s.ticks);
    RebasedKeepsReady(s.queue, s.ticks, s.nextID);
    var e := Event(ms, handler, data, s.nextID);
    var p := InsertPosition(q, ms);
    var r := InsertAt(q, e, p);
    assert FixedCreate(s, ms, handler, data) == (TimerState(r, 0, s.nextID + 1, s.fired), s.nextID);
    InsertSorted(q, e);
    InsertFresh(q, e, p);
    InsertAtIndex(q, e, p);
    assert r[p] == e && r[..p] + r[p + 1..] == q;
  }

  /**
   * As written, creating an event still keeps the counts pending and the
   * ids fresh, and returns an id no queued event has; the new event sits
   * among the rebased others, which keep their order.
   */
  lemma CreateKeepsIds(s: TimerState, ms: nat, handler: nat, data: nat)
    requires Ready(s) && IsU64(ms) && ms > 0
    ensures var (s', id) := Create(s, ms, handler, data);
      Pending(s'.queue, 0) && FreshIds(s'.queue, s'.nextID) && s'.nextID == s.nextID + 1
      && id == s.nextID && id >= 1 && (forall i :: 0 <= i < |s.queue| ==> s.queue[i].id != id)
      && s'.ticks == 0 && s'.fired == s.fired
      && exists p :: 0 <= p < |s'.queue| && s'.queue[p] == Event(ms, handler, data, id)
                   && s'.queue[..p] + s'.queue[p + 1..] == Rebased(s.queue, s.ticks)
  {
    var q := Rebased(s.queue, s.ticks);
    RebasedKeepsReady(s.queue, s.ticks, s.nextID);
    var e := Event(ms, handler, data, s.nextID);
    var p0 := InsertPositionAsWritten(q, ms);
    var p := if p0 >= |q| then |q| else p0;
    assert InsertAt(q, e, p0) == InsertAt(q, e, p);
    InsertFresh(q, e, p);
    InsertAtIndex(q, e, p);
    assert InsertAt(q, e, p)[p] == e;
  }

  /**
   * What the source's list does with a middle insertion of
   * `createTimedEvent`: `List::insertAt` links the node into the chain
   * that `Create` describes but keeps the count, so the queue `get` reads
   * is one event short and never reaches the event at chain position
   * `|q| / 2 + 1`, which therefore never fires.
   */
  lemma CreateHidesEvent(s: TimerState, ms: nat, handler: nat, data: nat)
    requires Ready(s) && IsU64(ms) && ms > 0
    ensures var q := Rebased(s.queue, s.ticks);
      var p := InsertPositionAsWritten(q, ms);
      var e := Event(ms, handler, data, s.nextID);
      var r := LinkedList.InsertAtState(LinkedList.ListState(q, |q|), e, p);
      var c := Create(s, ms, handler, data).0.queue;
      var h := |q| / 2 + 1;
      0 < p < |q| ==>
        r.chain == c && r.count == |q| && h < |c| && LinkedList.View(r) == c[..h] + c[h + 1..]
        && forall i :: 0 <= i < |q| ==> LinkedList.View(r)[i].id != c[h].id
  {
    var q := Rebased(s.queue, s.ticks);
    var p := InsertPositionAsWritten(q, ms);
    var e := Event(ms, handler, data, s.nextID);
    if 0 < p < |q| {
      var st := LinkedList.ListState(q, |q|);
      LinkedList.InsertAtHidesOne(st, e, p);
      var c := Create(s, ms, handler, data).0.queue;
      assert c == LinkedList.InsertedAt(q, e, p);
      CreateKeepsIds(s, ms, handler, data);
      var r := LinkedList.InsertAtState(st, e, p);
      var h := |q| / 2 + 1;
      forall i | 0 <= i < |q| ensures LinkedList.View(r)[i].id != c[h].id {
        if i < h {
          assert LinkedList.View(r)[i] == c[i];
        } else {
          assert LinkedList.View(r)[i] == c[i + 1];
        }
      }
    }
  }

  /**
   * The source's `createTimedEvent` and the corrected one agree when the
   * event belongs at the front or at the end of the queue; anywhere else
   * the source places it one entry early, in front of an event that falls
   * due sooner, and the queue is no longer sorted.
   */
  lemma CreateMisplaces(s: TimerState, ms: nat, handler: nat, data: nat)
    requires Ready(s) && IsU64(ms) && ms > 0
    ensures var q := Rebased(s.queue, s.ticks);
      var p := InsertPosition(q, ms);
      (p == 0 || p == |q| ==> Create(s, ms, handler, data) == FixedCreate(s, ms, handler, data))
      && (0 < p < |q| ==>
            var w := Create(s, ms, handler, data).0.queue;
            w[p - 1] == Event(ms, handler, data, s.nextID) && w[p] == q[p - 1]
            && q[p - 1].tickCount < ms && !Sorted(w))
  {
    var q := Rebased(s.queue, s.ticks);
    var p := InsertPosition(q, ms);
    var e := Event(ms, handler, data, s.nextID);
    AsWrittenOneEarly(q, ms);
    if 0 < p < |q| {
      InsertAtAt(q, e, p - 1, p - 1);
      InsertAtAt(q, e, p - 1, p);
      var w := InsertAt(q, e, p - 1);
      assert w[p - 1].tickCount > w[p].tickCount;
    }
  }

  /** The zero-millisecond request is refused with id 0 and changes nothing. */
  lemma CreateZero(s: TimerState, handler: nat, data: nat)
    ensures Create(s, 0, handler, data) == (s, 0)
    ensures FixedCreate(s, 0, handler, data) == (s, 0)
  {
  }

  /** `removeTimedEvent`: the first event with the id leaves the queue, if there is one. */
  function Remove(q: seq<Event>, id: nat): (r: seq<Event>)
    decreases |q|
  {
    if |q| == 0 then []
    else if q[0].id == id then q[1..]
    else [q[0]] + Remove(q[1..], id)
  }

  /** The index of the first event with the id, or the length of the queue. */
  function IndexOf(q: seq<Event>, id: nat): (k: nat)
    ensures k <= |q| && forall i :: 0 <= i < k ==> q[i].id != id
    ensures k < |q| ==> q[k].id == id
    decreases |q|
  {
    if |q| == 0 then 0
    else if q[0].id == id then 0
    else
      var k := IndexOf(q[1..], id);
      assert forall i :: 1 <= i < k + 1 ==> q[i] == q[1..][i - 1];
      k + 1
  }

  /** The first index with the id is the one before which no event has it. */
  lemma IndexOfUnique(q: seq<Event>, id: nat, k: nat)
    requires k <= |q| && (forall i :: 0 <= i < k ==> q[i].id != id)
    requires k < |q| ==> q[k].id == id
    ensures IndexOf(q, id) == k
  {
  }

  /** Removing takes out exactly the first event with that id and keeps the others in order. */
  lemma {:induction false} RemoveFirst(q: seq<Event>, id: nat)
    ensures IndexOf(q, id) < |q| ==> Remove(q, id) == q[..IndexOf(q, id)] + q[IndexOf(q, id) + 1..]
    ensures IndexOf(q, id) == |q| ==> Remove(q, id) == q
    decreases |q|
  {
    if |q| > 0 && q[0].id != id {
      var t := q[1..];
      RemoveFirst(t, id);
      var k := IndexOf(t, id);
      assert IndexOf(q, id) == k + 1;
      if k < |t| {
        calc {
          Remove(q, id);
          [q[0]] + Remove(t, id);
          [q[0]] + (t[..k] + t[k + 1..]);
          { assert t[..k] == q[1..k + 1] && t[k + 1..] == q[k + 2..]; }
          [q[0]] + (q[1..k + 1] + q[k + 2..]);
          ([q[0]] + q[1..k + 1]) + q[k + 2..];
          { assert [q[0]] + q[1..k + 1] == q[..k + 1]; }
          q[..k + 1] + q[k + 2..];
        }
      } else {
        assert [q[0]] + t == q;
      }
    }
  }

  /** Removing the event at `k` keeps every other one, in order. */
  lemma DeletePicks(q: seq<Event>, k: nat, ticks: nat)
    requires k < |q| && Pending(q, ticks)
    ensures Picks(q[..k] + q[k + 1..], q, seq(|q| - 1, i requires 0 <= i < |q| - 1 => if i < k then i else i + 1), 0)
  {
    var r := q[..k] + q[k + 1..];
    forall i | 0 <= i < |r| ensures r[i] == q[if i < k then i else i + 1] {
      if i < k {
        assert r[i] == q[..k][i];
      } else {
        assert r[i] == q[k + 1..][i - k];
      }
    }
  }

  /** With distinct ids the removed id is gone from a ready queue, which stays ready. */
  lemma RemoveKeepsReady(s: TimerState, id: nat)
    requires Ready(s)
    ensures Ready(s.(queue := Remove(s.queue, id)))
    ensures forall i :: 0 <= i < |Remove(s.queue, id)| ==> Remove(s.queue, id)[i].id != id
  {
    var q := s.queue;
    RemoveFirst(q, id);
    var k := IndexOf(q, id);
    if k < |q| {
      DeletePicks(q, k, s.ticks);
      var idx := seq(|q| - 1, i requires 0 <= i < |q| - 1 => if i < k then i else i + 1);
      var r := q[..k] + q[k + 1..];
      PicksKeepReady(r, q, idx, 0, s.ticks, s.nextID);
      forall i | 0 <= i < |r| ensures r[i].id != id {
        assert r[i].id == q[idx[i]].id;
      }
    }
  }

  /** Every count lowered by `min(c, count)`: the catch-up of the interrupt. */
  function Elapsed(q: seq<Event>, c: nat): (r: seq<Event>)
    ensures |r| == |q|
  {
    seq(|q|, i requires 0 <= i < |q| =>
      q[i].(tickCount := q[i].tickCount - (if c > q[i].tickCount then q[i].tickCount else c)))
  }

  /** The number of leading events whose count has reached zero. */
  function Due(q: seq<Event>): (k: nat)
    ensures k <= |q| && (forall i :: 0 <= i < k ==> q[i].tickCount == 0)
    ensures k < |q| ==> q[k].tickCount != 0
    decreases |q|
  {
    if |q| == 0 || q[0].tickCount != 0 then 0
    else
      var k := Due(q[1..]);
      assert forall i :: 1 <= i < k + 1 ==> q[i] == q[1..][i - 1];
      1 + k
  }

  /** The handler calls of the events, in order. */
  function Firings(q: seq<Event>): (r: seq<Firing>)
    ensures |r| == |q|
    ensures forall i :: 0 <= i < |q| ==> r[i] == Firing(q[i].handler, q[i].data)
  {
    if |q| == 0 then [] else [Firing(q[0].handler, q[0].data)] + Firings(q[1..])
  }

  /**
   * `oneShotInterruptHandler`: an empty queue resets the count; otherwise
   * the tick is counted and, once the first event is due, every count is
   * lowered, the leading events at zero fire in order and leave the queue,
   * and the count restarts.
   */
  function Tick(s: TimerState): TimerState
  {
    if |s.queue| == 0 then s.(ticks := 0)
    else
      var c := s.ticks + 1;
      if c < s.queue[0].tickCount then s.(ticks := c)
      else
        var q := Elapsed(s.queue, c);
        var k := Due(q);
        TimerState(q[k..], 0, s.nextID, s.fired + Firings(q[..k]))
  }

  /** The events of a sorted queue that the count reaches are exactly a prefix. */
  lemma DuePrefix(q: seq<Event>, c: nat)
    requires Sorted(q)
    ensures forall i :: 0 <= i < Due(Elapsed(q, c)) ==> q[i].tickCount <= c
    ensures forall i :: Due(Elapsed(q, c)) <= i < |q| ==> c < q[i].tickCount
  {
    var e := Elapsed(q, c);
    var k := Due(e);
    forall i | 0 <= i < k ensures q[i].tickCount <= c {
      assert e[i].tickCount == 0;
    }
    if k < |q| {
      assert e[k].tickCount != 0;
      assert c < q[k].tickCount;
    }
  }

  /**
   * On a ready queue an interrupt fires exactly the events whose count the
   * ticks have reached, in queue order, and keeps the rest in order with
   * their counts lowered; the queue stays ready.
   */
  lemma TickFiresDue(s: TimerState)
    requires Ready(s) && |s.queue| > 0 && s.queue[0].tickCount <= s.ticks + 1
    ensures var k := Due(Elapsed(s.queue, s.ticks + 1));
      (forall i :: 0 <= i < k ==> s.queue[i].tickCount <= s.ticks + 1)
      && (forall i :: k <= i < |s.queue| ==> s.ticks + 1 < s.queue[i].tickCount)
      && Tick(s) == TimerState(Rebased(s.queue[k..], s.ticks + 1), 0, s.nextID, s.fired + Firings(s.queue[..k]))
  {
    var c := s.ticks + 1;
    var q := Elapsed(s.queue, c);
    var k := Due(q);
    TickFiring(s);
    DuePrefix(s.queue, c);
    FiringsIgnoreCounts(q[..k], s.queue[..k]);
    ElapsedPicks(s.queue, c, k);
  }

  /** An interrupt that fires keeps the queue ready. */
  lemma TickKeepsReady(s: TimerState)
    requires Ready(s) && |s.queue| > 0 && s.queue[0].tickCount <= s.ticks + 1
    ensures Ready(Tick(s))
  {
    var c := s.ticks + 1;
    var q := Elapsed(s.queue, c);
    var k := Due(q);
    TickFiring(s);
    DuePrefix(s.queue, c);
    ElapsedPicks(s.queue, c, k);
    PicksKeepReady(q[k..], s.queue, seq(|s.queue| - k, i requires 0 <= i < |s.queue| - k => i + k), c, s.ticks, s.nextID);
  }

  /** An interrupt that finds the first event due. */
  lemma TickFiring(s: TimerState)
    requires |s.queue| > 0 && s.queue[0].tickCount <= s.ticks + 1
    ensures var q := Elapsed(s.queue, s.ticks + 1);
      Tick(s) == TimerState(q[Due(q)..], 0, s.nextID, s.fired + Firings(q[..Due(q)]))
  {
  }

  /** The handler calls do not depend on the counts. */
  lemma FiringsIgnoreCounts(a: seq<Event>, b: seq<Event>)
    requires |a| == |b| && forall i :: 0 <= i < |a| ==> a[i].handler == b[i].handler && a[i].data == b[i].data
    ensures Firings(a) == Firings(b)
  {
  }

  /** The events past the due ones keep their place, with the ticks taken off their counts. */
  lemma ElapsedPicks(q: seq<Event>, c: nat, k: nat)
    requires k <= |q| && Pending(q, 0) && forall i :: k <= i < |q| ==> c < q[i].tickCount
    ensures Picks(Elapsed(q, c)[k..], q, seq(|q| - k, i requires 0 <= i < |q| - k => i + k), c)
    ensures Elapsed(q, c)[k..] == Rebased(q[k..], c)
  {
  }

  /** Before the first event is due an interrupt only counts the tick; on an empty queue it resets the count. */
  lemma TickCounts(s: TimerState)
    requires Ready(s) && (|s.queue| == 0 || s.ticks + 1 < s.queue[0].tickCount)
    ensures Tick(s) == s.(ticks := if |s.queue| == 0 then 0 else s.ticks + 1)
    ensures Ready(Tick(s))
  {
  }

  /* ---------------------------------------------------------------------- */
  /* The insertion as written                                               */
  /* ---------------------------------------------------------------------- */

  /**
   * The position loop as written: `position` keeps the index of the last
   * event passed over, so an event that belongs before entry `i > 0` is
   * placed before entry `i - 1`; only the end case adds one.
   */
  function ScanPosition(q: seq<Event>, ms: nat, i: nat, position: nat): nat
    requires i <= |q|
    decreases |q| - i
  {
    if i == |q| then position + 1
    else if ms <= q[i].tickCount then position
    else ScanPosition(q, ms, i + 1, i)
  }

  function InsertPositionAsWritten(q: seq<Event>, ms: nat): nat
  {
    ScanPosition(q, ms, 0, 0)
  }

  /** As written the position is the intended one less one whenever that is not the front or the end. */
  lemma {:induction false} AsWrittenOneEarly(q: seq<Event>, ms: nat)
    ensures 0 < InsertPosition(q, ms) < |q| ==> InsertPositionAsWritten(q, ms) == InsertPosition(q, ms) - 1
    ensures InsertPosition(q, ms) == 0 && |q| > 0 ==> InsertPositionAsWritten(q, ms) == 0
    ensures InsertPosition(q, ms) == |q| ==> InsertPositionAsWritten(q, ms) >= |q|
  {
    ScanFrom(q, ms, 0, 0);
  }

  lemma {:induction false} ScanFrom(q: seq<Event>, ms: nat, i: nat, position: nat)
    requires i <= |q| && forall j :: 0 <= j < i ==> q[j].tickCount < ms
    requires i > 0 ==> position == i - 1
    requires i == 0 ==> position == 0
    ensures InsertPosition(q, ms) < |q| ==>
      ScanPosition(q, ms, i, position) == (if InsertPosition(q, ms) == 0 then 0 else InsertPosition(q, ms) - 1)
    ensures InsertPosition(q, ms) == |q| ==> ScanPosition(q, ms, i, position) == (if |q| == 0 then 1 else |q|)
    decreases |q| - i
  {
    var p := InsertPosition(q, ms);
    if i < |q| && q[i].tickCount < ms {
      ScanFrom(q, ms, i + 1, i);
    } else if i < |q| {
      InsertPositionUnique(q, ms, i);
    }
  }

  /** Events of 1 and 5 ms queued at tick 0, the one the examples below start from. */
  function TwoQueued(): TimerState
  {
    TimerState([Event(1, 7, 0, 1), Event(5, 8, 0, 2)], 0, 3, [])
  }

  /**
   * As written, a 3 ms event lands in front of the 1 ms one: the queue is
   * out of order and the next interrupt fires nothing although the 1 ms
   * event is due.
   */
  lemma EarlyInsertionDelaysEvent()
    ensures var w := Create(TwoQueued(), 3, 9, 0).0;
      w.queue == [Event(3, 9, 0, 3), Event(1, 7, 0, 1), Event(5, 8, 0, 2)]
      && !Sorted(w.queue) && Tick(w).fired == []
  {
    var s := TwoQueued();
    assert Rebased(s.queue, 0) == s.queue;
    assert ScanPosition(s.queue, 3, 1, 0) == 0;
    assert InsertPositionAsWritten(s.queue, 3) == 0;
    var w := Create(s, 3, 9, 0).0;
    assert w.queue == [Event(3, 9, 0, 3)] + s.queue;
    assert w.queue[0].tickCount > w.queue[1].tickCount;
  }

  /** The corrected insertion puts the 3 ms event between the others, and the next interrupt fires the 1 ms one. */
  lemma CorrectedInsertionFires()
    ensures var c := FixedCreate(TwoQueued(), 3, 9, 0).0;
      c.queue == [Event(1, 7, 0, 1), Event(3, 9, 0, 3), Event(5, 8, 0, 2)]
      && Sorted(c.queue) && Tick(c).fired == [Firing(7, 0)]
  {
    var s := TwoQueued();
    assert Rebased(s.queue, 0) == s.queue;
    assert InsertPosition(s.queue[1..], 3) == 0;
    assert InsertPosition(s.queue, 3) == 1;
    var c := FixedCreate(s, 3, 9, 0).0;
    assert c.queue == s.queue[..1] + [Event(3, 9, 0, 3)] + s.queue[1..];
    var e := Elapsed(c.queue, 1);
    assert e == [Event(0, 7, 0, 1), Event(2, 9, 0, 3), Event(4, 8, 0, 2)];
    assert Due(e[1..]) == 0;
    assert Due(e) == 1;
    assert e[..1] == [Event(0, 7, 0, 1)];
  }

  /* ---------------------------------------------------------------------- */
  /* The driver                                                             */
  /* ---------------------------------------------------------------------- */

  class Timer {
    var queue: seq<Event>
    var ticks: nat
    var nextID: nat
    var fired: seq<Firing>

    function View(): TimerState
      reads this
    {
      TimerState(queue, ticks, nextID, fired)
    }

    constructor ()
      ensures View() == Initial()
    {
      queue, ticks, nextID, fired := [], 0, 1, [];
    }

    /** `createTimedEvent(milliseconds, handler, handlerData)`. */
    method CreateTimedEvent(ms: nat, handler: nat, data: nat) returns (id: nat)
      requires IsU64(ms)
      modifies this
      ensures (View(), id) == Create(old(View()), ms, handler, data)
    {
      if ms == 0 {
        return 0;
      }
      Rebase();
      var position := Position(ms);
      id := nextID;
      nextID := nextID + 1;
      queue := InsertAt(queue, Event(ms, handler, data, id), position);
    }

    /** The first loop of `createTimedEvent`: every count rebased to the tick counter, which restarts. */
    method Rebase()
      modifies this
      ensures queue == Rebased(old(queue), old(ticks)) && ticks == 0
      ensures nextID == old(nextID) && fired == old(fired)
    {
      ghost var q := Rebased(queue, ticks);
      var i := 0;
      while i < |queue|
        invariant i <= |queue| == |q|
        invariant forall j :: 0 <= j < i ==> queue[j] == q[j]
        invariant forall j :: i <= j < |queue| ==> queue[j] == old(queue)[j]
        invariant ticks == old(ticks) && nextID == old(nextID) && fired == old(fired)
      {
        queue := queue[i := queue[i].(tickCount := WrapU64(queue[i].tickCount - ticks))];
        i := i + 1;
      }
      assert queue == q;
      ticks := 0;
    }

    /**
     * The position loop of `createTimedEvent` as written: `position` keeps
     * the index of the last event passed over, and one is added only when
     * no event stopped the loop.
     */
    method Position(ms: nat) returns (position: nat)
      ensures position == InsertPositionAsWritten(queue, ms)
    {
      position := 0;
      var inTheMiddle := false;
      var i := 0;
      while i < |queue|
        invariant i <= |queue|
        invariant ScanPosition(queue, ms, i, position) == InsertPositionAsWritten(queue, ms)
      {
        if ms <= queue[i].tickCount {
          inTheMiddle := true;
          break;
        }
        position := i;
        i := i + 1;
      }
      if !inTheMiddle {
        position := position + 1;
      }
    }

    /** `removeTimedEvent(id)`: the first event with the id, if any, leaves the queue. */
    method RemoveTimedEvent(id: nat)
      modifies this
      ensures View() == old(View()).(queue := Remove(old(queue), id))
    {
      var i := 0;
      while i < |queue|
        invariant i <= |queue| && forall j :: 0 <= j < i ==> queue[j].id != id
        invariant View() == old(View())
      {
        if queue[i].id == id {
          IndexOfUnique(queue, id, i);
          RemoveFirst(queue, id);
          queue := queue[..i] + queue[i + 1..];
          return;
        }
        i := i + 1;
      }
      IndexOfUnique(queue, id, |queue|);
      RemoveFirst(queue, id);
    }

    /** `oneShotInterruptHandler`, without the re-arming of the comparator. */
    method OneShotInterrupt()
      modifies this
      ensures View() == Tick(old(View()))
    {
      if |queue| == 0 {
        ticks := 0;
        return;
      }
      ticks := ticks + 1;
      if ticks >= queue[0].tickCount {
        CatchUp();
        FireDue();
        ticks := 0;
      }
    }

    /** The catch-up loop of the interrupt: every count lowered by the ticks, down to zero at most. */
    method CatchUp()
      modifies this
      ensures queue == Elapsed(old(queue), ticks)
      ensures ticks == old(ticks) && nextID == old(nextID) && fired == old(fired)
    {
      ghost var q := Elapsed(queue, ticks);
      var i := 0;
      while i < |queue|
        invariant i <= |queue| == |q|
        invariant forall j :: 0 <= j < i ==> queue[j] == q[j]
        invariant forall j :: i <= j < |queue| ==> queue[j] == old(queue)[j]
        invariant ticks == old(ticks) && nextID == old(nextID) && fired == old(fired)
      {
        var count := queue[i].tickCount;
        queue := queue[i := queue[i].(tickCount := count - (if ticks > count then count else ticks))];
        i := i + 1;
      }
      assert queue == q;
    }

    /** The firing loop: leading events at zero are called and removed, in order. */
    method FireDue()
      requires |queue| > 0 && queue[0].tickCount == 0
      modifies this
      ensures queue == old(queue)[Due(old(queue))..]
      ensures fired == old(fired) + Firings(old(queue)[..Due(old(queue))])
      ensures ticks == old(ticks) && nextID == old(nextID)
    {
      ghost var q := queue;
      ghost var k := Due(q);
      var done := 0;
      while true
        invariant done < k && queue == q[done..] && |queue| > 0 && queue[0].tickCount == 0
        invariant fired == old(fired) + Firings(q[..done])
        invariant ticks == old(ticks) && nextID == old(nextID)
        decreases |queue|
      {
        FiringsAppend(q, done);
        fired := fired + [Firing(queue[0].handler, queue[0].data)];
        queue := queue[1..];
        done := done + 1;
        if |queue| == 0 {
          return;
        }
        if queue[0].tickCount != 0 {
          return;
        }
      }
    }
  }

  /** Calling one more event extends the calls by it. */
  lemma FiringsAppend(q: seq<Event>, done: nat)
    requires done < |q|
    ensures Firings(q[..done + 1]) == Firings(q[..done]) + [Firing(q[done].handler, q[done].data)]
  {
  }
}

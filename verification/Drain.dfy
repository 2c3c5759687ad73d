/** The spill task (buffer_mgr_drain_once of buffer_mgr.c): the queue and then the rescue ring of each
    class of records are emptied into the store.  Packing a record is a pure conversion and is
    not modelled: channels hold packed records. */
module Drain {
  import opened Records
  import opened FlashBuffer
  import opened BufferManager
  import opened Intake

  /** The store can take `n` more records without an overflow event. */
  ghost predicate Absorbs(b: BufferManager, n: nat)
    reads b, b.flash
  {
    && b.ring.Length > 0
    && (|b.ram| + n <= b.ring.Length
        || (b.persistentReady && b.flash.reliable && (b.flash.dropOldest || |b.Contents()| + n <= b.Capacity())))
  }

  ghost predicate Apart(b: BufferManager, c: Channel)
  {
    c.slots != b.ring
  }

  /** The persistent tier takes records until it is full and then refuses. */
  ghost predicate Strict(b: BufferManager)
    reads b, b.flash
  {
    b.ring.Length > 0 && b.persistentReady && b.flash.reliable && !b.flash.dropOldest
  }

  /** How many records the store takes before it posts overflow events, and the events that wait. */
  datatype Room = Room(free: int, queue: seq<Record>, rescued: seq<Record>)

  /** The store takes what fits into both tiers, or into RAM alone. */
  ghost function RoomOf(b: BufferManager, events: Channel, tiered: bool): Room
    reads b, b.flash, events
  {
    var free := if tiered then b.Capacity() - |b.Contents()| else b.ring.Length - |b.ram|;
    Room(free, events.queue, events.rescued)
  }

  /** One record put; without room an event joins the backlog of events, or is dropped with that full too. */
  function TakeOne(r: Room, overflow: Record, depth: nat, cap: nat): Room {
    if r.free > 0 then r.(free := r.free - 1)
    else if |r.queue| < depth then r.(queue := r.queue + [overflow])
    else if |r.rescued| < cap then r.(rescued := r.rescued + [overflow])
    else r
  }

  /** One record put, and when its place was made by a spill nothing else changes. */
  function TakeWith(r: Room, spilled: bool, overflow: Record, depth: nat, cap: nat): Room {
    if spilled then r else TakeOne(r, overflow, depth, cap)
  }

  /** buffer_mgr_put_record_internal with the event it posts on an overflow, which is whenever RAM is full and
      its oldest record is not spilled. */
  method PutInternal(b: BufferManager, rec: Record, events: Channel, overflow: Record, ghost n: nat)
    returns (ok: bool, ghost spilled: bool)
    requires b.Valid() && events.Valid() && Apart(b, events) && rec.kind <= EVENT && overflow.kind <= EVENT
    modifies b, b.ring, b.flash, b.flash.flash, events`queue, events`head, events`rescued, events`drops, events.slots
    ensures b.Valid() && events.Valid() && b.persistentReady == old(b.persistentReady)
    ensures n > 0 && old(Absorbs(b, n)) ==>
              && Absorbs(b, n - 1)
              && ok && b.Contents() == Admitted(old(b.Contents()), Some(rec), b.Capacity())
              && events.queue == old(events.queue) && events.rescued == old(events.rescued)
    ensures spilled ==> b.persistentReady && old(RoomOf(b, events, false)).free == 0
    ensures b.ring.Length > 0 ==>
              RoomOf(b, events, false)
              == TakeWith(old(RoomOf(b, events, false)), spilled, overflow, events.depth, events.Spare())
    ensures Strict(b) ==>
              RoomOf(b, events, true) == TakeOne(old(RoomOf(b, events, true)), overflow, events.depth, events.Spare())
  {
    var before := b.overflows;
    var moved;
    ok, moved := b.PutRecord(rec);
    spilled := moved;
    if b.overflows > before {
      var _ := events.Post(overflow);
    }
  }

  lemma {:induction false} AdmittedAllAppend(q: seq<Slot>, xs: seq<Slot>, ys: seq<Slot>, capacity: nat)
    requires capacity > 0
    ensures AdmittedAll(q, xs + ys, capacity) == AdmittedAll(AdmittedAll(q, xs, capacity), ys, capacity)
    decreases |xs|
  {
    if xs == [] {
      assert xs + ys == ys;
    } else {
      assert (xs + ys)[1..] == xs[1..] + ys;
      AdmittedAllAppend(Admitted(q, xs[0], capacity), xs[1..], ys, capacity);
    }
  }

  /** One turn of a queue loop. */
  method TakeQueued(b: BufferManager, c: Channel, events: Channel, overflow: Record, ghost n: nat)
    returns (ok: bool, ghost spilled: bool)
    requires b.Valid() && c.Valid() && events.Valid() && Apart(b, c) && Apart(b, events) && overflow.kind <= EVENT
    requires c.queue != [] && (c != events ==> c.slots != events.slots)
    modifies b, b.ring, b.flash, b.flash.flash, c`queue
    modifies events`queue, events`head, events`rescued, events`drops, events.slots
    ensures b.Valid() && c.Valid() && events.Valid() && b.persistentReady == old(b.persistentReady)
    ensures n > 0 && old(Absorbs(b, n)) ==>
              && Absorbs(b, n - 1) && ok
              && b.Contents() == Admitted(old(b.Contents()), Some(old(c.queue)[0]), b.Capacity())
              && c.queue == old(c.queue)[1..] && c.rescued == old(c.rescued)
              && (c != events ==> events.queue == old(events.queue) && events.rescued == old(events.rescued))
    ensures c != events ==> c.queue == old(c.queue)[1..] && c.rescued == old(c.rescued)
    ensures spilled ==> b.persistentReady && old(RoomOf(b, events, false)).free == 0
    ensures var taken := if c == events then old(c.queue)[1..] else old(events.queue);
            && (b.ring.Length > 0 ==>
                  RoomOf(b, events, false)
                  == TakeWith(old(RoomOf(b, events, false)).(queue := taken), spilled, overflow,
                              events.depth, events.Spare()))
            && (Strict(b) ==>
                  RoomOf(b, events, true)
                  == TakeOne(old(RoomOf(b, events, true)).(queue := taken), overflow, events.depth, events.Spare()))
  {
    var rec := c.Receive();
    ok, spilled := PutInternal(b, rec.value, events, overflow, n);
  }

  /** One turn of a ring loop. */
  method TakeRescued(b: BufferManager, c: Channel, events: Channel, overflow: Record, ghost n: nat)
    returns (ok: bool, ghost spilled: bool)
    requires b.Valid() && c.Valid() && events.Valid() && Apart(b, c) && Apart(b, events) && overflow.kind <= EVENT
    requires c.rescued != [] && (c != events ==> c.slots != events.slots)
    modifies b, b.ring, b.flash, b.flash.flash, c`tail, c`rescued
    modifies events`queue, events`head, events`rescued, events`drops, events.slots
    ensures b.Valid() && c.Valid() && events.Valid() && b.persistentReady == old(b.persistentReady)
    ensures n > 0 && old(Absorbs(b, n)) ==>
              && Absorbs(b, n - 1) && ok
              && b.Contents() == Admitted(old(b.Contents()), Some(old(c.rescued)[0]), b.Capacity())
              && c.rescued == old(c.rescued)[1..] && c.queue == old(c.queue)
              && (c != events ==> events.queue == old(events.queue) && events.rescued == old(events.rescued))
    ensures c != events ==> c.rescued == old(c.rescued)[1..] && c.queue == old(c.queue)
    ensures spilled ==> b.persistentReady && old(RoomOf(b, events, false)).free == 0
    ensures var taken := if c == events then old(c.rescued)[1..] else old(events.rescued);
            && (b.ring.Length > 0 ==>
                  RoomOf(b, events, false)
                  == TakeWith(old(RoomOf(b, events, false)).(rescued := taken), spilled, overflow,
                              events.depth, events.Spare()))
            && (Strict(b) ==>
                  RoomOf(b, events, true)
                  == TakeOne(old(RoomOf(b, events, true)).(rescued := taken), overflow, events.depth, events.Spare()))
  {
    var rec := c.RingGet();
    ok, spilled := PutInternal(b, rec.value, events, overflow, n);
  }

  /** drain_telemetry_queue, drain_status_queue and drain_event_queue.  Nothing is left in the
      queue, and the loop ends because no put posts an event back. */
  method DrainQueue(b: BufferManager, c: Channel, events: Channel, overflow: Record, ghost n: nat) returns (did: bool)
    requires b.Valid() && c.Valid() && events.Valid() && Apart(b, c) && Apart(b, events) && overflow.kind <= EVENT
    requires |c.queue| <= n && Absorbs(b, n) && (c != events ==> c.slots != events.slots)
    modifies b, b.ring, b.flash, b.flash.flash, c`queue
    modifies events`queue, events`head, events`rescued, events`drops, events.slots
    ensures b.Valid() && c.Valid() && events.Valid() && b.persistentReady == old(b.persistentReady)
    ensures c.queue == [] && c.rescued == old(c.rescued) && Absorbs(b, n - |old(c.queue)|)
    ensures c != events ==> events.queue == old(events.queue) && events.rescued == old(events.rescued)
    ensures b.Contents() == AdmittedAll(old(b.Contents()), Lifted(old(c.queue)), b.Capacity())
    ensures did == (old(c.queue) != [])
  {
    did := false;
    ghost var cap, all := b.Capacity(), AdmittedAll(b.Contents(), Lifted(c.queue), b.Capacity());
    ghost var left := n;
    while c.queue != []
      invariant b.Valid() && c.Valid() && events.Valid() && b.Capacity() == cap
      invariant b.persistentReady == old(b.persistentReady)
      invariant |c.queue| <= left && left == n - |old(c.queue)| + |c.queue| && Absorbs(b, left)
      invariant c.rescued == old(c.rescued)
      invariant c != events ==> events.queue == old(events.queue) && events.rescued == old(events.rescued)
      invariant AdmittedAll(b.Contents(), Lifted(c.queue), cap) == all
      invariant did == (|c.queue| < |old(c.queue)|)
      decreases |c.queue|
    {
      LiftedShift(c.queue, c.queue[0]);
      var ok, spilled := TakeQueued(b, c, events, overflow, left);
      if ok {
        did := true;
      }
      left := left - 1;
    }
  }

  /** drain_telemetry_rescue_ring, drain_status_rescue_ring and drain_event_rescue_ring */
  method DrainRing(b: BufferManager, c: Channel, events: Channel, overflow: Record, ghost n: nat) returns (did: bool)
    requires b.Valid() && c.Valid() && events.Valid() && Apart(b, c) && Apart(b, events) && overflow.kind <= EVENT
    requires |c.rescued| <= n && Absorbs(b, n) && (c != events ==> c.slots != events.slots)
    modifies b, b.ring, b.flash, b.flash.flash, c`tail, c`rescued
    modifies events`queue, events`head, events`rescued, events`drops, events.slots
    ensures b.Valid() && c.Valid() && events.Valid() && b.persistentReady == old(b.persistentReady)
    ensures c.rescued == [] && c.head == c.tail && c.queue == old(c.queue) && Absorbs(b, n - |old(c.rescued)|)
    ensures c != events ==> events.queue == old(events.queue) && events.rescued == old(events.rescued)
    ensures b.Contents() == AdmittedAll(old(b.Contents()), Lifted(old(c.rescued)), b.Capacity())
    ensures did == (old(c.rescued) != [])
  {
    did := false;
    ghost var cap, all := b.Capacity(), AdmittedAll(b.Contents(), Lifted(c.rescued), b.Capacity());
    ghost var left := n;
    c.EmptyRing();
    while c.head != c.tail
      invariant b.Valid() && c.Valid() && events.Valid() && b.Capacity() == cap
      invariant b.persistentReady == old(b.persistentReady)
      invariant c.head != c.tail <==> c.rescued != []
      invariant |c.rescued| <= left && left == n - |old(c.rescued)| + |c.rescued| && Absorbs(b, left)
      invariant c.queue == old(c.queue)
      invariant c != events ==> events.queue == old(events.queue) && events.rescued == old(events.rescued)
      invariant AdmittedAll(b.Contents(), Lifted(c.rescued), cap) == all
      invariant did == (|c.rescued| < |old(c.rescued)|)
      decreases |c.rescued|
    {
      LiftedShift(c.rescued, c.rescued[0]);
      var ok, spilled := TakeRescued(b, c, events, overflow, left);
      if ok {
        did := true;
      }
      left := left - 1;
      c.EmptyRing();
    }
  }

  /** Putting one stretch of records and then another. */
  lemma TwoStretches(c0: seq<Slot>, q: seq<Record>, c1: seq<Slot>, r: seq<Record>, c2: seq<Slot>, capacity: nat)
    requires capacity > 0 && c1 == AdmittedAll(c0, Lifted(q), capacity) && c2 == AdmittedAll(c1, Lifted(r), capacity)
    ensures c2 == AdmittedAll(c0, Lifted(q + r), capacity)
  {
    AdmittedAllAppend(c0, Lifted(q), Lifted(r), capacity);
    assert Lifted(q + r) == Lifted(q) + Lifted(r);
  }

  /** Queue and ring of one class. */
  method DrainChannel(b: BufferManager, c: Channel, events: Channel, overflow: Record, ghost n: nat) returns (did: bool)
    requires b.Valid() && c.Valid() && events.Valid() && Apart(b, c) && Apart(b, events) && overflow.kind <= EVENT
    requires |c.queue| + |c.rescued| <= n && Absorbs(b, n) && (c != events ==> c.slots != events.slots)
    modifies b, b.ring, b.flash, b.flash.flash, c`queue, c`tail, c`rescued
    modifies events`queue, events`head, events`rescued, events`drops, events.slots
    ensures b.Valid() && c.Valid() && events.Valid() && b.persistentReady == old(b.persistentReady)
    ensures c.queue == [] && c.rescued == [] && c.head == c.tail && Absorbs(b, n - |old(c.queue)| - |old(c.rescued)|)
    ensures c != events ==> events.queue == old(events.queue) && events.rescued == old(events.rescued)
    ensures b.Contents() == AdmittedAll(old(b.Contents()), Lifted(old(c.queue) + old(c.rescued)), b.Capacity())
    ensures did == (old(c.queue) != [] || old(c.rescued) != [])
  {
    ghost var c0, q, r := b.Contents(), c.queue, c.rescued;
    var first := DrainQueue(b, c, events, overflow, n);
    ghost var c1 := b.Contents();
    var second := DrainRing(b, c, events, overflow, n - |q|);
    TwoStretches(c0, q, c1, r, b.Contents(), b.Capacity());
    did := first || second;
  }

  lemma AllThree(c0: seq<Slot>, t: seq<Record>, c1: seq<Slot>, s: seq<Record>, e: seq<Record>, c2: seq<Slot>,
                 capacity: nat)
    requires capacity > 0 && |c0| <= capacity
    requires c1 == AdmittedAll(c0, Lifted(t), capacity) && c2 == AdmittedAll(c1, Lifted(s + e), capacity)
    ensures c2 == LastN(c0 + Lifted(t + s + e), capacity)
  {
    TwoStretches(c0, t, c1, s + e, c2, capacity);
    assert t + (s + e) == t + s + e;
    HoldsMostRecent(c0, Lifted(t + s + e), capacity);
  }

  method DrainStatusAndEvents(b: BufferManager, status: Channel, events: Channel, overflow: Record) returns (did: bool)
    requires b.Valid() && status.Valid() && events.Valid() && Apart(b, status) && Apart(b, events)
    requires overflow.kind <= EVENT && status != events && status.slots != events.slots
    requires Absorbs(b, |status.Backlog() + events.Backlog()|)
    modifies b, b.ring, b.flash, b.flash.flash, status`queue, status`tail, status`rescued, events, events.slots
    ensures b.Valid() && status.Valid() && events.Valid() && b.persistentReady == old(b.persistentReady)
    ensures status.Backlog() == [] && events.Backlog() == [] && status.QueueFirst() && events.QueueFirst()
    ensures b.Contents()
            == AdmittedAll(old(b.Contents()), Lifted(old(status.Backlog() + events.Backlog())), b.Capacity())
    ensures did == (old(status.Backlog() + events.Backlog()) != [])
  {
    ghost var c0, s, e := b.Contents(), status.Backlog(), events.Backlog();
    var didS := DrainChannel(b, status, events, overflow, |s| + |e|);
    ghost var c1 := b.Contents();
    var didE := DrainChannel(b, events, events, overflow, |e|);
    TwoStretches(c0, s, c1, e, b.Contents(), b.Capacity());
    did := didS || didE;
  }

  /** buffer_mgr_drain_once: telemetry, then status, then events, each in the order of production.
      When the store can absorb the backlog the drain ends, all six sources are empty, no overflow
      event is posted, and the store holds the most recent records that fit. */
  method DrainOnce(b: BufferManager, telemetry: Channel, status: Channel, events: Channel, overflow: Record)
    returns (notify: bool)
    requires b.Valid() && telemetry.Valid() && status.Valid() && events.Valid() && overflow.kind <= EVENT
    requires Apart(b, telemetry) && Apart(b, status) && Apart(b, events)
    requires telemetry != status && telemetry != events && status != events
    requires telemetry.slots != status.slots && telemetry.slots != events.slots && status.slots != events.slots
    requires |b.Contents()| <= b.Capacity()
    requires Absorbs(b, |telemetry.Backlog() + status.Backlog() + events.Backlog()|)
    modifies b, b.ring, b.flash, b.flash.flash, telemetry, status, events, events.slots
    ensures b.Valid() && telemetry.Valid() && status.Valid() && events.Valid()
    ensures telemetry.Backlog() == [] && status.Backlog() == [] && events.Backlog() == []
    ensures telemetry.QueueFirst() && status.QueueFirst() && events.QueueFirst()
    ensures var backlog := old(telemetry.Backlog() + status.Backlog() + events.Backlog());
            b.Contents() == LastN(old(b.Contents()) + Lifted(backlog), b.Capacity())
    ensures notify == (old(telemetry.Backlog() + status.Backlog() + events.Backlog()) != [])
  {
    ghost var c0, t, s, e := b.Contents(), telemetry.Backlog(), status.Backlog(), events.Backlog();
    ghost var cap := b.Capacity();
    var didT := DrainChannel(b, telemetry, events, overflow, |t| + |s| + |e|);
    ghost var c1 := b.Contents();
    var didRest := DrainStatusAndEvents(b, status, events, overflow);
    AllThree(c0, t, c1, s, e, b.Contents(), cap);
    notify := didT || didRest;
  }

  /** gateway_ipc_try_post_status: a status record that is dropped leaves an event. */
  method PostStatus(status: Channel, events: Channel, rec: Record, overflow: Record) returns (ok: bool)
    requires status.Valid() && events.Valid() && status != events && status.slots != events.slots
    requires rec.kind <= EVENT && overflow.kind <= EVENT && status.QueueFirst() && events.QueueFirst()
    modifies status, status.slots, events, events.slots
    ensures status.Valid() && events.Valid() && status.QueueFirst() && events.QueueFirst()
    ensures status.Backlog() == if ok then old(status.Backlog()) + [rec] else old(status.Backlog())
    ensures ok ==> events.Backlog() == old(events.Backlog())
    ensures !ok ==> |old(status.Backlog())| == status.depth + status.slots.Length - 1
    ensures !ok ==>
              events.Backlog() == if |old(events.Backlog())| < events.depth + events.slots.Length - 1
                                  then old(events.Backlog()) + [overflow] else old(events.Backlog())
  {
    events.EmptyRing();
    ok := status.Post(rec);
    if !ok {
      var _ := events.Post(overflow);
    }
  }

  // ---------------------------------------------------------------- when a drain does not end

  /** A drain by the numbers: what waits in the three queues and rings, and the records the store takes before
      it posts overflow events. */
  datatype Flow = Flow(telemetry: nat, telemetryRing: nat, status: nat, statusRing: nat, events: nat, eventRing: nat,
                       free: nat)

  /** Which loop of buffer_mgr_drain_once is running. */
  datatype Phase = Telemetry | TelemetryRing | Status | StatusRing | Events | EventRing | Ended

  datatype Draining = Draining(phase: Phase, f: Flow)

  /** One put; once the store is full every put posts an overflow event. */
  function PutOne(f: Flow, depth: nat, cap: nat): Flow {
    if f.free > 0 then f.(free := f.free - 1)
    else if f.events < depth then f.(events := f.events + 1)
    else if f.eventRing < cap then f.(eventRing := f.eventRing + 1)
    else f
  }

  function PutWith(f: Flow, spilled: bool, depth: nat, cap: nat): Flow {
    if spilled then f else PutOne(f, depth, cap)
  }

  /** One turn of the loop that is running, or the step from one loop to the next, with an event queue of
      `depth` and an event ring that holds `cap`; `spilled` says that the put was absorbed by a spill. */
  function TurnWith(d: Draining, spilled: bool, depth: nat, cap: nat): Draining {
    var f := d.f;
    match d.phase
    case Telemetry =>
      if f.telemetry > 0 then Draining(Telemetry, PutWith(f.(telemetry := f.telemetry - 1), spilled, depth, cap))
      else Draining(TelemetryRing, f)
    case TelemetryRing =>
      if f.telemetryRing > 0 then
        Draining(TelemetryRing, PutWith(f.(telemetryRing := f.telemetryRing - 1), spilled, depth, cap))
      else Draining(Status, f)
    case Status =>
      if f.status > 0 then Draining(Status, PutWith(f.(status := f.status - 1), spilled, depth, cap))
      else Draining(StatusRing, f)
    case StatusRing =>
      if f.statusRing > 0 then Draining(StatusRing, PutWith(f.(statusRing := f.statusRing - 1), spilled, depth, cap))
      else Draining(Events, f)
    case Events =>
      if f.events > 0 then Draining(Events, PutWith(f.(events := f.events - 1), spilled, depth, cap))
      else Draining(EventRing, f)
    case EventRing =>
      if f.eventRing > 0 then Draining(EventRing, PutWith(f.(eventRing := f.eventRing - 1), spilled, depth, cap))
      else Draining(Ended, f)
    case Ended => d
  }

  function Turn(d: Draining, depth: nat, cap: nat): Draining {
    TurnWith(d, false, depth, cap)
  }

  /** Turn after turn, as the persistent tier takes spills. */
  function TurnsWith(d: Draining, spills: seq<bool>, depth: nat, cap: nat): Draining
    decreases |spills|
  {
    if spills == [] then d
    else TurnWith(TurnsWith(d, spills[..|spills| - 1], depth, cap), spills[|spills| - 1], depth, cap)
  }

  function Turns(d: Draining, n: nat, depth: nat, cap: nat): Draining
    decreases n
  {
    if n == 0 then d else Turn(Turns(d, n - 1, depth, cap), depth, cap)
  }

  function Todo(d: Draining): nat {
    match d.phase
    case Telemetry => d.f.telemetry
    case TelemetryRing => d.f.telemetryRing
    case Status => d.f.status
    case StatusRing => d.f.statusRing
    case Events => d.f.events
    case EventRing => d.f.eventRing
    case Ended => 0
  }

  /** A turn that puts a record while RAM is full. */
  predicate MaySpill(d: Draining) {
    Todo(d) > 0 && d.f.free == 0
  }

  /** Every spill happened on a turn that could spill. */
  predicate Allowed(d: Draining, spills: seq<bool>, depth: nat, cap: nat)
    decreases |spills|
  {
    spills == []
    || (var before := spills[..|spills| - 1];
        && Allowed(d, before, depth, cap)
        && (spills[|spills| - 1] ==> MaySpill(TurnsWith(d, before, depth, cap))))
  }

  // ---------------------------------------------------------------- the turns are those of the code

  ghost predicate Ready(b: BufferManager, t: Channel, s: Channel, e: Channel)
    reads b, b.ring, b.flash, b.flash.flash, t, t.slots, s, s.slots, e, e.slots
  {
    && b.Valid() && t.Valid() && s.Valid() && e.Valid() && b.ring.Length > 0
    && Apart(b, t) && Apart(b, s) && Apart(b, e) && t != s && t != e && s != e
    && t.slots != s.slots && t.slots != e.slots && s.slots != e.slots
    && |b.ram| <= b.ring.Length && |b.Contents()| <= b.Capacity()
  }

  ghost function FlowOf(b: BufferManager, t: Channel, s: Channel, e: Channel, tiered: bool): Flow
    requires Ready(b, t, s, e)
    reads b, b.ring, b.flash, b.flash.flash, t, t.slots, s, s.slots, e, e.slots
  {
    Flow(|t.queue|, |t.rescued|, |s.queue|, |s.rescued|, |e.queue|, |e.rescued|, RoomOf(b, e, tiered).free)
  }

  method QueueTurn(b: BufferManager, c: Channel, events: Channel, overflow: Record, here: Phase, beyond: Phase)
    returns (next: Phase, ghost spilled: bool)
    requires b.Valid() && c.Valid() && events.Valid() && Apart(b, c) && Apart(b, events) && overflow.kind <= EVENT
    requires c != events ==> c.slots != events.slots
    modifies b, b.ring, b.flash, b.flash.flash, c`queue
    modifies events`queue, events`head, events`rescued, events`drops, events.slots
    ensures b.Valid() && c.Valid() && events.Valid() && b.persistentReady == old(b.persistentReady)
    ensures next == if old(c.queue) == [] then beyond else here
    ensures spilled ==> b.persistentReady && old(c.queue) != [] && old(RoomOf(b, events, false)).free == 0
    ensures c != events ==>
              c.queue == (if old(c.queue) == [] then [] else old(c.queue)[1..]) && c.rescued == old(c.rescued)
    ensures old(c.queue) == [] ==>
              !spilled && RoomOf(b, events, false) == old(RoomOf(b, events, false))
              && RoomOf(b, events, true) == old(RoomOf(b, events, true))
    ensures var taken := if c != events || old(c.queue) == [] then old(events.queue) else old(c.queue)[1..];
            && (old(c.queue) != [] && b.ring.Length > 0 ==>
                  RoomOf(b, events, false)
                  == TakeWith(old(RoomOf(b, events, false)).(queue := taken), spilled, overflow,
                              events.depth, events.Spare()))
            && (old(c.queue) != [] && Strict(b) ==>
                  RoomOf(b, events, true)
                  == TakeOne(old(RoomOf(b, events, true)).(queue := taken), overflow, events.depth, events.Spare()))
  {
    next, spilled := beyond, false;
    if c.queue != [] {
      var ok;
      ok, spilled := TakeQueued(b, c, events, overflow, 0);
      next := here;
    }
  }

  method RingTurn(b: BufferManager, c: Channel, events: Channel, overflow: Record, here: Phase, beyond: Phase)
    returns (next: Phase, ghost spilled: bool)
    requires b.Valid() && c.Valid() && events.Valid() && Apart(b, c) && Apart(b, events) && overflow.kind <= EVENT
    requires c != events ==> c.slots != events.slots
    modifies b, b.ring, b.flash, b.flash.flash, c`tail, c`rescued
    modifies events`queue, events`head, events`rescued, events`drops, events.slots
    ensures b.Valid() && c.Valid() && events.Valid() && b.persistentReady == old(b.persistentReady)
    ensures next == if old(c.rescued) == [] then beyond else here
    ensures spilled ==> b.persistentReady && old(c.rescued) != [] && old(RoomOf(b, events, false)).free == 0
    ensures c != events ==>
              c.rescued == (if old(c.rescued) == [] then [] else old(c.rescued)[1..]) && c.queue == old(c.queue)
    ensures old(c.rescued) == [] ==>
              !spilled && RoomOf(b, events, false) == old(RoomOf(b, events, false))
              && RoomOf(b, events, true) == old(RoomOf(b, events, true))
    ensures var taken := if c != events || old(c.rescued) == [] then old(events.rescued) else old(c.rescued)[1..];
            && (old(c.rescued) != [] && b.ring.Length > 0 ==>
                  RoomOf(b, events, false)
                  == TakeWith(old(RoomOf(b, events, false)).(rescued := taken), spilled, overflow,
                              events.depth, events.Spare()))
            && (old(c.rescued) != [] && Strict(b) ==>
                  RoomOf(b, events, true)
                  == TakeOne(old(RoomOf(b, events, true)).(rescued := taken), overflow, events.depth, events.Spare()))
  {
    next, spilled := beyond, false;
    c.EmptyRing();
    if c.head != c.tail {
      var ok;
      ok, spilled := TakeRescued(b, c, events, overflow, 0);
      next := here;
    }
  }

  method TelemetryTurn(b: BufferManager, t: Channel, s: Channel, e: Channel, overflow: Record, phase: Phase)
    returns (next: Phase, ghost spilled: bool)
    requires Ready(b, t, s, e) && overflow.kind <= EVENT && (phase == Telemetry || phase == TelemetryRing)
    modifies b, b.ring, b.flash, b.flash.flash, t, s, e, e.slots
    ensures Ready(b, t, s, e) && b.persistentReady == old(b.persistentReady)
    ensures spilled ==> b.persistentReady && MaySpill(Draining(phase, old(FlowOf(b, t, s, e, false))))
    ensures Draining(next, FlowOf(b, t, s, e, false))
            == TurnWith(Draining(phase, old(FlowOf(b, t, s, e, false))), spilled, e.depth, e.Spare())
    ensures Strict(b) ==>
              Draining(next, FlowOf(b, t, s, e, true))
              == Turn(Draining(phase, old(FlowOf(b, t, s, e, true))), e.depth, e.Spare())
  {
    if phase == Telemetry {
      next, spilled := QueueTurn(b, t, e, overflow, Telemetry, TelemetryRing);
    } else {
      next, spilled := RingTurn(b, t, e, overflow, TelemetryRing, Status);
    }
  }

  method StatusTurn(b: BufferManager, t: Channel, s: Channel, e: Channel, overflow: Record, phase: Phase)
    returns (next: Phase, ghost spilled: bool)
    requires Ready(b, t, s, e) && overflow.kind <= EVENT && (phase == Status || phase == StatusRing)
    modifies b, b.ring, b.flash, b.flash.flash, t, s, e, e.slots
    ensures Ready(b, t, s, e) && b.persistentReady == old(b.persistentReady)
    ensures spilled ==> b.persistentReady && MaySpill(Draining(phase, old(FlowOf(b, t, s, e, false))))
    ensures Draining(next, FlowOf(b, t, s, e, false))
            == TurnWith(Draining(phase, old(FlowOf(b, t, s, e, false))), spilled, e.depth, e.Spare())
    ensures Strict(b) ==>
              Draining(next, FlowOf(b, t, s, e, true))
              == Turn(Draining(phase, old(FlowOf(b, t, s, e, true))), e.depth, e.Spare())
  {
    if phase == Status {
      next, spilled := QueueTurn(b, s, e, overflow, Status, StatusRing);
    } else {
      next, spilled := RingTurn(b, s, e, overflow, StatusRing, Events);
    }
  }

  method EventsTurn(b: BufferManager, t: Channel, s: Channel, e: Channel, overflow: Record, phase: Phase)
    returns (next: Phase, ghost spilled: bool)
    requires Ready(b, t, s, e) && overflow.kind <= EVENT && (phase == Events || phase == EventRing)
    modifies b, b.ring, b.flash, b.flash.flash, t, s, e, e.slots
    ensures Ready(b, t, s, e) && b.persistentReady == old(b.persistentReady)
    ensures spilled ==> b.persistentReady && MaySpill(Draining(phase, old(FlowOf(b, t, s, e, false))))
    ensures Draining(next, FlowOf(b, t, s, e, false))
            == TurnWith(Draining(phase, old(FlowOf(b, t, s, e, false))), spilled, e.depth, e.Spare())
    ensures Strict(b) ==>
              Draining(next, FlowOf(b, t, s, e, true))
              == Turn(Draining(phase, old(FlowOf(b, t, s, e, true))), e.depth, e.Spare())
  {
    if phase == Events {
      next, spilled := QueueTurn(b, e, e, overflow, Events, EventRing);
    } else {
      next, spilled := RingTurn(b, e, e, overflow, EventRing, Ended);
    }
  }

  /** One turn of the loop of buffer_mgr_drain_once that is running, or the step to the next. */
  method OneTurn(b: BufferManager, t: Channel, s: Channel, e: Channel, overflow: Record, phase: Phase)
    returns (next: Phase, ghost spilled: bool)
    requires Ready(b, t, s, e) && overflow.kind <= EVENT
    modifies b, b.ring, b.flash, b.flash.flash, t, s, e, e.slots
    ensures Ready(b, t, s, e) && b.persistentReady == old(b.persistentReady)
    ensures spilled ==> b.persistentReady && MaySpill(Draining(phase, old(FlowOf(b, t, s, e, false))))
    ensures Draining(next, FlowOf(b, t, s, e, false))
            == TurnWith(Draining(phase, old(FlowOf(b, t, s, e, false))), spilled, e.depth, e.Spare())
    ensures Strict(b) ==>
              Draining(next, FlowOf(b, t, s, e, true))
              == Turn(Draining(phase, old(FlowOf(b, t, s, e, true))), e.depth, e.Spare())
  {
    next, spilled := phase, false;
    match phase
    case Telemetry | TelemetryRing => next, spilled := TelemetryTurn(b, t, s, e, overflow, phase);
    case Status | StatusRing => next, spilled := StatusTurn(b, t, s, e, overflow, phase);
    case Events | EventRing => next, spilled := EventsTurn(b, t, s, e, overflow, phase);
    case Ended =>
  }

  /** THE CODE TAKES THE TURNS.  After any number of turns of the six loops the numbers are those of the model, in
      which each put finds a free place in RAM, is absorbed by a spill or overflows.  With a persistent tier
      that refuses when full they are also those of the model that counts the room of both tiers. */
  method DrainTurns(b: BufferManager, t: Channel, s: Channel, e: Channel, overflow: Record, n: nat)
    returns (phase: Phase, ghost spills: seq<bool>)
    requires Ready(b, t, s, e) && overflow.kind <= EVENT
    modifies b, b.ring, b.flash, b.flash.flash, t, s, e, e.slots
    ensures Ready(b, t, s, e) && |spills| == n && (true in spills ==> old(b.persistentReady))
    ensures var d := Draining(Telemetry, old(FlowOf(b, t, s, e, false)));
            && Allowed(d, spills, e.depth, e.Spare())
            && Draining(phase, FlowOf(b, t, s, e, false)) == TurnsWith(d, spills, e.depth, e.Spare())
    ensures old(Strict(b)) ==>
              Draining(phase, FlowOf(b, t, s, e, true))
              == Turns(Draining(Telemetry, old(FlowOf(b, t, s, e, true))), n, e.depth, e.Spare())
  {
    phase, spills := Telemetry, [];
    ghost var d := Draining(Telemetry, FlowOf(b, t, s, e, false));
    for k := 0 to n
      invariant Ready(b, t, s, e) && b.persistentReady == old(b.persistentReady)
      invariant |spills| == k && (true in spills ==> b.persistentReady)
      invariant Allowed(d, spills, e.depth, e.Spare())
      invariant Draining(phase, FlowOf(b, t, s, e, false)) == TurnsWith(d, spills, e.depth, e.Spare())
      invariant old(Strict(b)) ==>
                  Draining(phase, FlowOf(b, t, s, e, true))
                  == Turns(Draining(Telemetry, old(FlowOf(b, t, s, e, true))), k, e.depth, e.Spare())
    {
      ghost var spilled;
      phase, spilled := OneTurn(b, t, s, e, overflow, phase);
      assert (spills + [spilled])[..k] == spills;
      spills := spills + [spilled];
    }
  }

  // ---------------------------------------------------------------- exactly when the turns come to an end

  /** Telemetry and status records still to come. */
  function Others(f: Flow): nat {
    f.telemetry + f.telemetryRing + f.status + f.statusRing
  }

  /** The guard a caller could check before draining. */
  predicate Ends(d: Draining, depth: nat) {
    var f := d.f;
    match d.phase
    case Ended => true
    case EventRing => f.events + f.eventRing <= f.free + depth
    case Events => f.events <= f.free && f.events + f.eventRing <= f.free + depth
    case _ => Others(f) + f.events <= f.free && Others(f) + f.events + f.eventRing <= f.free + depth
  }

  predicate Fits(f: Flow, depth: nat, cap: nat) {
    f.events <= depth && f.eventRing <= cap
  }

  function Rank(p: Phase): nat {
    match p
    case Telemetry => 6
    case TelemetryRing => 5
    case Status => 4
    case StatusRing => 3
    case Events => 2
    case EventRing => 1
    case Ended => 0
  }

  /** What the turns so far have left of the drain's premises: earlier sources are empty, and once the event ring
      is being emptied, the event queue is filled only because the store is full. */
  predicate Possible(d: Draining, depth: nat, cap: nat) {
    var f, r := d.f, Rank(d.phase);
    && Fits(f, depth, cap)
    && (r < 6 ==> f.telemetry == 0) && (r < 5 ==> f.telemetryRing == 0)
    && (r < 4 ==> f.status == 0) && (r < 3 ==> f.statusRing == 0)
    && (r < 2 ==> f.events == 0 || f.free == 0)
    && (r < 1 ==> f.eventRing == 0)
  }

  lemma TurnKeepsPossible(d: Draining, depth: nat, cap: nat)
    requires Possible(d, depth, cap)
    ensures Possible(Turn(d, depth, cap), depth, cap)
  {
  }

  lemma TurnKeepsEnds(d: Draining, depth: nat, cap: nat)
    requires depth > 0 && Possible(d, depth, cap)
    ensures Possible(Turn(d, depth, cap), depth, cap)
    ensures Ends(Turn(d, depth, cap), depth) <==> Ends(d, depth)
  {
    TurnKeepsPossible(d, depth, cap);
    if Rank(d.phase) >= 3 {
      OthersKeepEnds(d, depth, cap);
    }
  }

  lemma OthersKeepEnds(d: Draining, depth: nat, cap: nat)
    requires depth > 0 && Possible(d, depth, cap) && Rank(d.phase) >= 3
    ensures Ends(Turn(d, depth, cap), depth) <==> Ends(d, depth)
  {
  }

  lemma {:induction false} TurnsKeepEnds(d: Draining, n: nat, depth: nat, cap: nat)
    requires depth > 0 && Possible(d, depth, cap)
    ensures Possible(Turns(d, n, depth, cap), depth, cap)
    ensures Ends(Turns(d, n, depth, cap), depth) <==> Ends(d, depth)
    decreases n
  {
    if n > 0 {
      TurnsKeepEnds(d, n - 1, depth, cap);
      TurnKeepsEnds(Turns(d, n - 1, depth, cap), depth, cap);
    }
  }

  /** Records to come, less the free places: what does not fit is left, as events, in the event queue. */
  function Excess(f: Flow): int {
    Others(f) + f.events + f.eventRing - f.free
  }

  /** A drain that can end makes headway with every turn, and the excess stays. */
  lemma TurnProgress(d: Draining, depth: nat, cap: nat)
    requires depth > 0 && Possible(d, depth, cap) && Ends(d, depth) && !d.phase.Ended?
    ensures var e := Turn(d, depth, cap);
            && Excess(e.f) == Excess(d.f)
            && (Rank(e.phase) < Rank(d.phase) || (e.phase == d.phase && Todo(e) < Todo(d)))
  {
  }

  lemma {:induction false} TurnsKeepExcess(d: Draining, n: nat, depth: nat, cap: nat)
    requires depth > 0 && Possible(d, depth, cap) && Ends(d, depth)
    ensures Excess(Turns(d, n, depth, cap).f) == Excess(d.f)
    decreases n
  {
    if n > 0 {
      TurnsKeepExcess(d, n - 1, depth, cap);
      TurnsKeepEnds(d, n - 1, depth, cap);
      var e := Turns(d, n - 1, depth, cap);
      if !e.phase.Ended? {
        TurnProgress(e, depth, cap);
      }
    }
  }

  lemma {:induction false} FirstTurn(d: Draining, n: nat, depth: nat, cap: nat)
    ensures Turns(d, n + 1, depth, cap) == Turns(Turn(d, depth, cap), n, depth, cap)
    decreases n
  {
    if n > 0 {
      FirstTurn(d, n - 1, depth, cap);
    }
  }

  lemma {:induction false} Reaches(d: Draining, depth: nat, cap: nat) returns (n: nat)
    requires depth > 0 && Possible(d, depth, cap) && Ends(d, depth)
    ensures Turns(d, n, depth, cap).phase.Ended?
    decreases Rank(d.phase), Todo(d)
  {
    if d.phase.Ended? {
      n := 0;
    } else {
      TurnKeepsEnds(d, depth, cap);
      TurnProgress(d, depth, cap);
      var m := Reaches(Turn(d, depth, cap), depth, cap);
      FirstTurn(d, m, depth, cap);
      n := m + 1;
    }
  }

  /** TERMINATION.  A drain that nothing else interrupts ends exactly when the free places hold everything up to
      the event queue, and all but one event queue of the rest; otherwise the overflow events it posts
      keep it going for ever. */
  lemma DrainEndsExactly(f: Flow, depth: nat, cap: nat)
    requires depth > 0 && Fits(f, depth, cap)
    ensures (exists n :: Turns(Draining(Telemetry, f), n, depth, cap).phase.Ended?)
            <==> Others(f) + f.events <= f.free && Others(f) + f.events + f.eventRing <= f.free + depth
  {
    var d := Draining(Telemetry, f);
    if Ends(d, depth) {
      var n := Reaches(d, depth, cap);
    }
    forall n: nat | Turns(d, n, depth, cap).phase.Ended? ensures Ends(d, depth) {
      TurnsKeepEnds(d, n, depth, cap);
    }
  }

  /** A drain that has ended has emptied all six sources exactly when the free places held the whole backlog;
      what did not fit has become events in the event queue. */
  lemma DrainEmptiesExactly(f: Flow, n: nat, depth: nat, cap: nat)
    requires depth > 0 && Fits(f, depth, cap) && Turns(Draining(Telemetry, f), n, depth, cap).phase.Ended?
    ensures var g := Turns(Draining(Telemetry, f), n, depth, cap).f;
            Others(g) == 0 && g.eventRing == 0 && g.events == if Excess(f) > 0 then Excess(f) else 0
  {
    TurnsKeepEnds(Draining(Telemetry, f), n, depth, cap);
    TurnsKeepExcess(Draining(Telemetry, f), n, depth, cap);
  }

  // ---------------------------------------------------------------- with spills that come and go

  /** As long as nothing is spilled, because there is no persistent tier or its writes fail. */
  lemma {:induction false} TurnsWithout(d: Draining, spills: seq<bool>, depth: nat, cap: nat)
    requires true !in spills
    ensures TurnsWith(d, spills, depth, cap) == Turns(d, |spills|, depth, cap)
    decreases |spills|
  {
    if spills != [] {
      var before := spills[..|spills| - 1];
      assert true !in before;
      assert spills[|spills| - 1] in spills;
      TurnsWithout(d, before, depth, cap);
    }
  }

  /** Of the records put so far: how many a spill absorbed, how many posted an overflow event, and how many of
      those events found no place. */
  datatype Tally = Tally(spilled: nat, overflowed: nat, lost: nat)

  function TallyOf(d: Draining, spills: seq<bool>, depth: nat, cap: nat): Tally
    decreases |spills|
  {
    if spills == [] then Tally(0, 0, 0)
    else
      var before := spills[..|spills| - 1];
      Counted(TallyOf(d, before, depth, cap), TurnsWith(d, before, depth, cap), spills[|spills| - 1], depth, cap)
  }

  function Counted(y: Tally, d: Draining, spilled: bool, depth: nat, cap: nat): Tally {
    if !MaySpill(d) then y
    else if spilled then y.(spilled := y.spilled + 1)
    else if NoPlace(d, depth, cap) then Tally(y.spilled, y.overflowed + 1, y.lost + 1)
    else y.(overflowed := y.overflowed + 1)
  }

  /** The event queue and the event ring stay full when the record is taken. */
  predicate NoPlace(d: Draining, depth: nat, cap: nat) {
    d.f.events >= depth && d.f.eventRing >= cap && !d.phase.Events? && !d.phase.EventRing?
  }

  function Waiting(f: Flow): nat {
    Others(f) + f.events + f.eventRing
  }

  lemma TurnPossible(d: Draining, spilled: bool, depth: nat, cap: nat)
    requires Possible(d, depth, cap) && (spilled ==> MaySpill(d))
    ensures Possible(TurnWith(d, spilled, depth, cap), depth, cap)
  {
    TurnKeepsPossible(d, depth, cap);
  }

  lemma PutRecords(f: Flow, spilled: bool, depth: nat, cap: nat)
    requires spilled ==> f.free == 0
    ensures var g := PutWith(f, spilled, depth, cap);
            var gone := spilled || (f.free == 0 && f.events >= depth && f.eventRing >= cap);
            g.free <= f.free && Waiting(g) + (f.free - g.free) + (if gone then 1 else 0) == Waiting(f) + 1
  {
  }

  /** The numbers when the running loop has taken its record. */
  function Taken(d: Draining): Flow
    requires Todo(d) > 0
  {
    match d.phase
    case Telemetry => d.f.(telemetry := d.f.telemetry - 1)
    case TelemetryRing => d.f.(telemetryRing := d.f.telemetryRing - 1)
    case Status => d.f.(status := d.f.status - 1)
    case StatusRing => d.f.(statusRing := d.f.statusRing - 1)
    case Events => d.f.(events := d.f.events - 1)
    case EventRing => d.f.(eventRing := d.f.eventRing - 1)
  }

  lemma TurnPuts(d: Draining, spilled: bool, depth: nat, cap: nat)
    requires Todo(d) > 0
    ensures TurnWith(d, spilled, depth, cap) == Draining(d.phase, PutWith(Taken(d), spilled, depth, cap))
    ensures Waiting(Taken(d)) + 1 == Waiting(d.f) && Taken(d).free == d.f.free
  {
  }

  /** One turn's share of the records that wait. */
  lemma TurnRecords(d: Draining, spilled: bool, y: Tally, depth: nat, cap: nat)
    requires depth > 0 && Possible(d, depth, cap) && (spilled ==> MaySpill(d))
    ensures var e, z := TurnWith(d, spilled, depth, cap), Counted(y, d, spilled, depth, cap);
            && e.f.free <= d.f.free
            && Waiting(e.f) + (d.f.free - e.f.free) + (z.spilled - y.spilled) + (z.lost - y.lost) == Waiting(d.f)
  {
    if Todo(d) > 0 {
      TurnPuts(d, spilled, depth, cap);
      PutRecords(Taken(d), spilled, depth, cap);
    }
  }

  /** And of the turns. */
  lemma TurnCounted(d: Draining, spilled: bool, y: Tally, depth: nat, cap: nat)
    requires depth > 0 && Possible(d, depth, cap) && (spilled ==> MaySpill(d)) && !d.phase.Ended?
    ensures var e, z := TurnWith(d, spilled, depth, cap), Counted(y, d, spilled, depth, cap);
            1 == Rank(d.phase) - Rank(e.phase) + (d.f.free - e.f.free) + (z.spilled - y.spilled)
                 + (z.overflowed - y.overflowed)
  {
  }

  /** Between `d` and `e`, `n` turns later: every record that waited is put into a free place of RAM, absorbed by a
      spill, or waiting as an event, except for the events that found no place; and unless the drain has ended
      it has taken one turn for each free place used, spill, overflow event and loop left behind. */
  predicate Accounted(d: Draining, e: Draining, y: Tally, n: nat) {
    && e.f.free <= d.f.free
    && Waiting(e.f) + (d.f.free - e.f.free) + y.spilled + y.lost == Waiting(d.f)
    && (!e.phase.Ended? ==> n == Rank(d.phase) - Rank(e.phase) + (d.f.free - e.f.free) + y.spilled + y.overflowed)
  }

  lemma AccountedThen(d: Draining, m: Draining, y: Tally, n: nat, last: bool, depth: nat, cap: nat)
    requires depth > 0 && Possible(m, depth, cap) && (last ==> MaySpill(m)) && Accounted(d, m, y, n)
    ensures Possible(TurnWith(m, last, depth, cap), depth, cap)
    ensures Accounted(d, TurnWith(m, last, depth, cap), Counted(y, m, last, depth, cap), n + 1)
  {
    TurnPossible(m, last, depth, cap);
    TurnRecords(m, last, y, depth, cap);
    if !m.phase.Ended? {
      TurnCounted(m, last, y, depth, cap);
    }
  }

  lemma LastTurn(d: Draining, spills: seq<bool>, depth: nat, cap: nat)
    returns (before: seq<bool>, last: bool, m: Draining, y: Tally)
    requires spills != [] && Allowed(d, spills, depth, cap)
    ensures |before| == |spills| - 1 && Allowed(d, before, depth, cap) && (last ==> MaySpill(m))
    ensures m == TurnsWith(d, before, depth, cap) && y == TallyOf(d, before, depth, cap)
    ensures TurnsWith(d, spills, depth, cap) == TurnWith(m, last, depth, cap)
    ensures TallyOf(d, spills, depth, cap) == Counted(y, m, last, depth, cap)
  {
    before, last := spills[..|spills| - 1], spills[|spills| - 1];
    m, y := TurnsWith(d, before, depth, cap), TallyOf(d, before, depth, cap);
  }

  /** WITH ANY PERSISTENT TIER, spills taken and refused as they come, the account is kept: a drain outlasts the free
      places and the spills only by posting events. */
  lemma {:induction false} TurnsAccount(d: Draining, spills: seq<bool>, depth: nat, cap: nat)
    requires depth > 0 && Possible(d, depth, cap) && Allowed(d, spills, depth, cap)
    ensures Possible(TurnsWith(d, spills, depth, cap), depth, cap)
    ensures Accounted(d, TurnsWith(d, spills, depth, cap), TallyOf(d, spills, depth, cap), |spills|)
    decreases |spills|
  {
    if spills != [] {
      var before, last, m, y := LastTurn(d, spills, depth, cap);
      TurnsAccount(d, before, depth, cap);
      AccountedThen(d, m, y, |before|, last, depth, cap);
    }
  }

  /** What a drain leaves that has ended: as events in the event queue, what neither fitted nor was spilled. */
  lemma DrainLeavesExactly(f: Flow, spills: seq<bool>, depth: nat, cap: nat)
    requires depth > 0 && Fits(f, depth, cap) && Allowed(Draining(Telemetry, f), spills, depth, cap)
    requires TurnsWith(Draining(Telemetry, f), spills, depth, cap).phase.Ended?
    ensures var g := TurnsWith(Draining(Telemetry, f), spills, depth, cap).f;
            var y := TallyOf(Draining(Telemetry, f), spills, depth, cap);
            var left := Excess(f) - y.spilled - y.lost;
            Others(g) == 0 && g.eventRing == 0 && g.events == if left > 0 then left else 0
  {
    TurnsAccount(Draining(Telemetry, f), spills, depth, cap);
  }
}

/** How records reach the store: per class a FreeRTOS queue and behind it a rescue ring
    (gateway_ipc.c, emergency_ring.c, pmbus_poll_task.c). */
module Intake {
  import opened Records
  import opened Cyclic
  import opened BufferManager

  /** One class of records.  A ring of n slots holds n - 1 records: head == tail means empty. */
  class Channel {
    const depth: nat                // length of the queue
    const slots: array<Record>      // the rescue ring
    var head: nat
    var tail: nat
    var queue: seq<Record>
    var drops: nat                  // queue_drops
    ghost var rescued: seq<Record>  // the records in the ring, oldest first

    ghost predicate Detail()
      reads `head, `tail, `rescued, slots
    {
      && 0 < slots.Length && head < slots.Length && tail < slots.Length
      && |rescued| < slots.Length && head == At(tail, |rescued|, slots.Length)
      && rescued == Window(slots[..], tail, |rescued|)
    }

    ghost predicate Sealed(n: nat)
      reads `head, `tail, `rescued, slots
      decreases n, this
    {
      if n > 0 then Sealed(n - 1) else Detail()
    }

    ghost predicate Valid()
      reads this, slots
    {
      Sealed(3) && |queue| <= depth && |rescued| < slots.Length && Storable(queue) && Storable(rescued)
    }

    lemma Open()
      requires Valid()
      ensures Detail()
    {
      assert Sealed(2);
      assert Sealed(1);
      assert Sealed(0);
    }

    lemma Close()
      requires Detail() && |queue| <= depth && Storable(queue) && Storable(rescued)
      ensures Valid()
    {
      assert Sealed(0);
      assert Sealed(1);
      assert Sealed(2);
    }

    /** How many records the rescue ring can hold. */
    function Spare(): nat {
      if slots.Length > 0 then slots.Length - 1 else 0
    }

    /** What waits, in the order the store is to get it. */
    ghost function Backlog(): seq<Record>
      reads this
    {
      queue + rescued
    }

    /** Between drains records are rescued only because the queue is full. */
    predicate QueueFirst()
      reads this
    {
      head != tail ==> |queue| == depth
    }

    constructor (depth: nat, capacity: nat)
      requires capacity > 0
      ensures Valid() && QueueFirst() && Backlog() == [] && fresh(slots)
      ensures this.depth == depth && slots.Length == capacity && drops == 0
    {
      this.depth := depth;
      slots := new Record[capacity];
      head, tail, queue, drops, rescued := 0, 0, [], 0, [];
      new;
      Close();
    }

    lemma EmptyRing()
      requires Valid()
      ensures head == tail <==> rescued == []
    {
      Open();
    }

    /** xQueueSend without waiting */
    method Send(rec: Record) returns (ok: bool)
      requires Valid() && rec.kind <= EVENT
      modifies `queue
      ensures Valid() && ok == (|old(queue)| < depth)
      ensures queue == if ok then old(queue) + [rec] else old(queue)
    {
      ok := |queue| < depth;
      if ok {
        queue := queue + [rec];
      }
    }

    /** xQueueReceive without waiting */
    method Receive() returns (out: Option<Record>)
      requires Valid()
      modifies `queue
      ensures Valid()
      ensures if old(queue) == [] then out == None && queue == []
              else out == Some(old(queue)[0]) && queue == old(queue)[1..]
    {
      if queue == [] {
        return None;
      }
      out := Some(queue[0]);
      queue := queue[1..];
    }

    /** emergency_ring_put and its two siblings */
    method RingPut(rec: Record) returns (ok: bool)
      requires Valid() && rec.kind <= EVENT
      modifies `head, `rescued, slots
      ensures Valid() && ok == (|old(rescued)| + 1 < slots.Length)
      ensures rescued == if ok then old(rescued) + [rec] else old(rescued)
    {
      Open();
      var next := Succ(head, slots.Length);
      if next == tail {
        return false;
      }
      Push(slots[..], tail, |rescued|, head, rec);
      slots[head] := rec;
      assert slots[..] == old(slots[..])[head := rec];
      head := next;
      rescued := rescued + [rec];
      Close();
      return true;
    }

    /** emergency_ring_get and its two siblings */
    method RingGet() returns (out: Option<Record>)
      requires Valid()
      modifies `tail, `rescued
      ensures Valid()
      ensures if old(rescued) == [] then out == None && rescued == []
              else out == Some(old(rescued)[0]) && rescued == old(rescued)[1..]
    {
      Open();
      if head == tail {
        return None;
      }
      out := Some(slots[tail]);
      Pop(slots[..], tail, |rescued|);
      tail := Succ(tail, slots.Length);
      rescued := rescued[1..];
      Close();
    }

    /** gateway_ipc_try_post_status, gateway_ipc_post_event and the end of poll_telemetry: a record
        joins the end of the backlog, or is dropped because queue and ring are both full. */
    method Post(rec: Record) returns (ok: bool)
      requires Valid() && rec.kind <= EVENT
      modifies `queue, `head, `rescued, `drops, slots
      ensures Valid()
      ensures ok == (|old(queue)| < depth || |old(rescued)| + 1 < slots.Length)
      ensures queue == if |old(queue)| < depth then old(queue) + [rec] else old(queue)
      ensures rescued == if ok && |old(queue)| == depth then old(rescued) + [rec] else old(rescued)
      ensures drops == old(drops) + if ok then 0 else 1
      ensures old(QueueFirst()) ==> QueueFirst() && Backlog() == if ok then old(Backlog()) + [rec] else old(Backlog())
    {
      EmptyRing();
      ok := Send(rec);
      if !ok {
        ok := RingPut(rec);
        if !ok {
          drops := drops + 1;
        }
      }
      EmptyRing();
    }
  }
}

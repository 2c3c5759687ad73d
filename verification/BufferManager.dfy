/** The two-tier store (buffer_mgr.c): a RAM ring in front of the Em_EEPROM tier.  The persistent
    records followed by the RAM records are one queue. */
module BufferManager {
  import opened Records
  import opened Cyclic
  import opened FlashBuffer

  function Lifted(q: seq<Record>): (r: seq<Slot>)
    ensures |r| == |q|
  {
    seq(|q|, i requires 0 <= i < |q| => Some(q[i]))
  }

  lemma LiftedShift(q: seq<Record>, x: Record)
    ensures Lifted(q + [x]) == Lifted(q) + [Some(x)]
    ensures q != [] ==> Lifted(q[1..]) == Lifted(q)[1..] && Lifted(q) == [Some(q[0])] + Lifted(q[1..])
  {
  }

  /** A bounded FIFO that gives up its oldest element when full. */
  function Admitted(q: seq<Slot>, x: Slot, capacity: nat): seq<Slot>
    requires capacity > 0
  {
    if |q| < capacity then q + [x] else (q + [x])[1..]
  }

  /** The persistent records after a put: the oldest given up, the oldest RAM record appended. */
  function PersistentAfter(p: seq<Slot>, ram: seq<Record>, lost: bool, spilled: bool): seq<Slot>
    requires (lost ==> p != []) && (spilled ==> ram != [])
  {
    (if lost then p[1..] else p) + if spilled then [Some(ram[0])] else []
  }

  /** Moving the oldest RAM record behind the persistent ones does not change the one queue: for a
      RAM tier of `n` and a persistent tier of `f` records, a put is a put into one FIFO of n + f. */
  lemma OneQueue(p: seq<Slot>, ram: seq<Record>, rec: Record, n: nat, f: nat)
    requires |p| <= f && |ram| <= n && n > 0
    ensures var full := |ram| == n;
            PersistentAfter(p, ram, full && f > 0 && |p| == f, full && f > 0)
            + Lifted((if full then ram[1..] else ram) + [rec])
            == Admitted(p + Lifted(ram), Some(rec), n + f)
  {
    var left := if |ram| == n then ram[1..] else ram;
    LiftedShift(left, rec);
    if |ram| == n {
      LiftedShift(ram, rec);
    }
  }

  predicate Storable(q: seq<Record>) {
    forall i :: 0 <= i < |q| ==> q[i].kind <= EVENT
  }

  lemma StorableShift(q: seq<Record>, x: Record)
    requires Storable(q)
    ensures q != [] ==> Storable(q[1..])
    ensures x.kind <= EVENT ==> Storable(q + [x])
  {
  }

  // ---------------------------------------------------------------- runs of puts

  function AdmittedAll(q: seq<Slot>, xs: seq<Slot>, capacity: nat): (r: seq<Slot>)
    requires capacity > 0
    decreases |xs|
  {
    if xs == [] then q else AdmittedAll(Admitted(q, xs[0], capacity), xs[1..], capacity)
  }

  /** The last `n` elements, or all when there are fewer. */
  function LastN(q: seq<Slot>, n: nat): seq<Slot> {
    if |q| <= n then q else q[|q| - n..]
  }

  lemma AdmittedFirst(q: seq<Slot>, x: Slot, rest: seq<Slot>, capacity: nat)
    requires capacity > 0 && |q| <= capacity
    ensures LastN(Admitted(q, x, capacity) + rest, capacity) == LastN((q + [x]) + rest, capacity)
  {
    var all := q + [x];
    if |q| == capacity {
      assert all[1..] + rest == (all + rest)[1..];
    }
  }

  /** After any run of puts the store holds the most recent records, as many as fit. */
  lemma {:induction false} HoldsMostRecent(q: seq<Slot>, xs: seq<Slot>, capacity: nat)
    requires capacity > 0 && |q| <= capacity
    ensures AdmittedAll(q, xs, capacity) == LastN(q + xs, capacity)
    decreases |xs|
  {
    if xs == [] {
      assert q + xs == q;
    } else {
      var r := Admitted(q, xs[0], capacity);
      HoldsMostRecent(r, xs[1..], capacity);
      assert q + xs == (q + [xs[0]]) + xs[1..];
      AdmittedFirst(q, xs[0], xs[1..], capacity);
    }
  }

  class BufferManager {
    const ring: array<Record>       // s_ring, s_capacity; no ring is a ring of no slots
    const flash: FlashBuffer        // the persistent tier
    var head: nat
    var tail: nat
    var count: nat
    var persistentReady: bool
    var initAttempted: bool
    var enqueued: nat
    var dequeued: nat
    var dropped: nat
    var overflows: nat              // overflow events posted

    ghost var ram: seq<Record>      // the records in the ring, oldest first

    ghost predicate Detail()
      reads `head, `tail, `count, `ram, `persistentReady, `initAttempted, ring
    {
      && (persistentReady ==> initAttempted)
      && count <= ring.Length
      && (if ring.Length == 0 then head == 0 && tail == 0
          else tail < ring.Length && head == At(tail, count, ring.Length))
      && ram == Window(ring[..], tail, count) && Storable(ram)
    }

    /** Callers see the two queues; the ring is looked at only through Open and Close. */
    ghost predicate Sealed(n: nat)
      reads `head, `tail, `count, `ram, `persistentReady, `initAttempted, ring
      decreases n, this
    {
      if n > 0 then Sealed(n - 1) else Detail()
    }

    ghost predicate Valid()
      reads this, ring, flash, flash.flash
    {
      Sealed(3) && flash.Valid() && persistentReady == flash.initialised && |ram| == count <= ring.Length
    }

    lemma Open()
      requires Valid()
      ensures Detail()
    {
      assert Sealed(2);
      assert Sealed(1);
      assert Sealed(0);
    }

    lemma Close()
      requires Detail() && flash.Valid() && persistentReady == flash.initialised
      ensures Valid()
    {
      assert Sealed(0);
      assert Sealed(1);
      assert Sealed(2);
    }

    ghost function Persistent(): seq<Slot>
      reads this, flash
    {
      flash.queue
    }

    /** The one queue: persistent records first. */
    ghost function Contents(): seq<Slot>
      reads this, flash
    {
      Persistent() + Lifted(ram)
    }

    function Capacity(): nat
      reads this, flash
    {
      ring.Length + if persistentReady then flash.Capacity() else 0
    }

    /** Records held or counted out, less the records counted in. */
    ghost function Balance(): int
      reads this, flash
    {
      flash.Balance() + count + dequeued + dropped - enqueued
    }

    constructor (capacity: nat, flash: FlashBuffer)
      requires flash.Valid() && !flash.initialised
      ensures Valid() && !persistentReady && !initAttempted && ram == [] && this.flash == flash
      ensures ring.Length == capacity && fresh(ring)
    {
      ring := new Record[capacity];
      this.flash := flash;
      head, tail, count := 0, 0, 0;
      persistentReady, initAttempted := false, false;
      enqueued, dequeued, dropped, overflows, ram := 0, 0, 0, 0, [];
      new;
      Close();
    }

    /** buffer_mgr_try_init_persistent.  Metadata left by the same capacity brings the records of the last
        boot back in front of what RAM already holds. */
    method LateInit()
      requires Valid()
      modifies `persistentReady, `initAttempted, flash, flash.flash
      ensures old(initAttempted) || flash.maxRecords == 0 ==> Valid() && Contents() == old(Contents())
      ensures var m := MetaOf(flash.crc, old(flash.flash[0]));
              !old(initAttempted) && flash.maxRecords > 0 ==>
                && (m == None && persistentReady ==> Valid() && Contents() == Lifted(old(ram)))
                && (m.Some? && Coherent(m.value, flash.Capacity()) ==>
                      && Valid() && persistentReady
                      && Contents()
                         == QueueOf(SlotsOf(flash.crc, old(flash.flash[..])), m.value, flash.Capacity())
                            + Lifted(old(ram)))
    {
      Open();
      if flash.maxRecords == 0 || persistentReady || initAttempted {
        return;
      }
      initAttempted := true;
      var ok := flash.Init();
      persistentReady := ok;
      if flash.Valid() {
        Close();
      }
    }

    /** s_tail and s_count moved past the oldest RAM record. */
    method DropOldest()
      requires Valid() && count > 0
      modifies `tail, `count, `ram
      ensures Valid() && Balance() == old(Balance()) - 1
      ensures ram == old(ram)[1..] && Persistent() == old(Persistent())
    {
      Open();
      Pop(ring[..], tail, count);
      StorableShift(ram, ram[0]);
      tail := Succ(tail, ring.Length);
      count := count - 1;
      ram := ram[1..];
      Close();
    }

    /** Spilling the oldest RAM record into the persistent tier. */
    method Spill() returns (ok: bool)
      requires Valid() && persistentReady && count == ring.Length > 0
      modifies `tail, `count, `ram, flash, flash.flash
      ensures Valid() && (old(flash.faulted) ==> flash.faulted)
      ensures var p, full := old(Persistent()), |old(Persistent())| >= flash.Capacity();
              && (full && !flash.dropOldest ==> !ok)
              && ((!flash.faulted || flash.reliable) && !(full && !flash.dropOldest) ==> ok)
              && Persistent()
                 == (if full && flash.dropOldest then p[1..] else p) + (if ok then [Some(old(ram)[0])] else [])
      ensures ram == if ok then old(ram)[1..] else old(ram)
      ensures Balance() == old(Balance()) +
                if ok then -1 else if |old(Persistent())| >= flash.Capacity() && !flash.dropOldest then 1 else 0
      ensures flash.reliable ==> flash.faulted == old(flash.faulted)
    {
      Open();
      var oldest := ring[tail];
      assert oldest == ram[0];
      ok := flash.PutRecord(oldest);
      if ok {
        DropOldest();
      }
    }

    /** Storing the record in the ring slot at the head. */
    method StoreInRing(rec: Record)
      requires Valid() && count < ring.Length && rec.kind <= EVENT
      modifies `head, `count, `ram, ring
      ensures Valid() && ram == old(ram) + [rec] && Persistent() == old(Persistent())
    {
      Open();
      Push(ring[..], tail, count, head, rec);
      StorableShift(ram, rec);
      ring[head] := rec;
      assert ring[..] == old(ring[..])[old(head) := rec];
      head := Succ(head, ring.Length);
      count := count + 1;
      ram := ram + [rec];
      Close();
    }

    /** The first half of buffer_mgr_put_record: room for one more record in RAM. */
    method MakeRoom() returns (ok: bool, spilled: bool)
      requires Valid() && ring.Length > 0
      modifies `tail, `count, `ram, `dropped, `overflows, flash, flash.flash
      ensures Valid() && (old(flash.faulted) ==> flash.faulted)
      ensures ok == (flash.dropOldest || |old(ram)| < ring.Length || spilled)
      ensures spilled ==> |old(ram)| == ring.Length && persistentReady
      ensures spilled ==> flash.dropOldest || |old(Persistent())| < flash.Capacity()
      ensures MustSpill(|old(ram)|, |old(Persistent())|) ==> spilled
      ensures ram == if |old(ram)| == ring.Length && ok then old(ram)[1..] else old(ram)
      ensures Persistent()
              == PersistentAfter(old(Persistent()), old(ram), LosesOldest(|old(ram)|, |old(Persistent())|), spilled)
      ensures overflows == old(overflows) + if |old(ram)| == ring.Length && !spilled then 1 else 0
      ensures Balance() == old(Balance()) + if spilled then -1 else if ok then 0 else Refusals(|old(Persistent())|)
      ensures flash.reliable || |old(ram)| < ring.Length ==> flash.faulted == old(flash.faulted)
    {
      ok, spilled := true, false;
      if count >= ring.Length && persistentReady {
        spilled := Spill();
      }
      if count >= ring.Length {
        overflows := overflows + 1;
        dropped := dropped + 1;
        if flash.dropOldest {
          DropOldest();
        } else {
          ok := false;
        }
      }
    }

    /** Whether the spill of a put cannot fail: there is one, and the persistent tier has room or makes it. */
    ghost predicate MustSpill(inRam: nat, inFlash: nat)
      reads this, flash
    {
      && inRam == ring.Length && persistentReady
      && (!flash.faulted || flash.reliable) && (flash.dropOldest || inFlash < flash.Capacity())
    }

    /** How often a refused record is counted as dropped: once by each tier that had no room. */
    function Refusals(inFlash: nat): nat
      reads this, flash
    {
      if persistentReady && inFlash >= flash.Capacity() then 2 else 1
    }

    /** Whether a put gives up the oldest persistent record. */
    predicate LosesOldest(inRam: nat, inFlash: nat)
      reads this, flash
    {
      inRam == ring.Length && persistentReady && inFlash >= flash.Capacity() && flash.dropOldest
    }

    /** What buffer_mgr_put_record does to each tier with a record it can store. */
    method PutInTiers(rec: Record) returns (ok: bool, spilled: bool)
      requires Valid() && ring.Length > 0 && rec.kind <= EVENT
      modifies `head, `tail, `count, `ram, `enqueued, `dropped, `overflows, ring, flash, flash.flash
      ensures Valid() && (old(flash.faulted) ==> flash.faulted)
      ensures ok == (flash.dropOldest || |old(ram)| < ring.Length || spilled)
      ensures spilled ==> |old(ram)| == ring.Length && persistentReady
      ensures spilled ==> flash.dropOldest || |old(Persistent())| < flash.Capacity()
      ensures MustSpill(|old(ram)|, |old(Persistent())|) ==> spilled
      ensures ram == if !ok then old(ram) else (if |old(ram)| == ring.Length then old(ram)[1..] else old(ram)) + [rec]
      ensures Persistent()
              == PersistentAfter(old(Persistent()), old(ram), LosesOldest(|old(ram)|, |old(Persistent())|), spilled)
      ensures overflows == old(overflows) + if |old(ram)| == ring.Length && !spilled then 1 else 0
      ensures Balance() == old(Balance()) + if ok then 0 else Refusals(|old(Persistent())|)
      ensures flash.reliable || |old(ram)| < ring.Length ==> flash.faulted == old(flash.faulted)
    {
      ok, spilled := MakeRoom();
      if ok {
        StoreInRing(rec);
        if !spilled {
          enqueued := enqueued + 1;
        }
      }
    }

    /** buffer_mgr_put_record.  With drop_oldest the two tiers are one bounded FIFO: the record is
        appended, and the oldest record is lost exactly when both tiers are full.  When the spill
        fails the oldest RAM record is lost, and with it the oldest persistent record if the
        persistent tier was full. */
    method PutRecord(rec: Record) returns (ok: bool, spilled: bool)
      requires Valid()
      modifies this, ring, flash, flash.flash
      ensures Valid() && persistentReady == old(persistentReady) && (old(flash.faulted) ==> flash.faulted)
      ensures ok ==> ring.Length > 0 && rec.kind <= EVENT
      ensures ring.Length > 0 && rec.kind <= EVENT ==> ok == (flash.dropOldest || |old(ram)| < ring.Length || spilled)
      ensures spilled ==> |old(ram)| == ring.Length && persistentReady && ok
      ensures spilled ==> flash.dropOldest || |old(Persistent())| < flash.Capacity()
      ensures ok && (!flash.faulted || flash.reliable || |old(ram)| < ring.Length) ==>
                Contents() == Admitted(old(Contents()), Some(rec), Capacity())
      ensures !ok ==> Contents() == old(Contents()) && ram == old(ram)
      ensures ok ==> |ram| == if |old(ram)| == ring.Length then ring.Length else |old(ram)| + 1
      ensures rec.kind <= EVENT && ring.Length > 0 && MustSpill(|old(ram)|, |old(Persistent())|) ==> spilled
      ensures ring.Length == 0 || rec.kind > EVENT ==> Balance() == old(Balance()) && overflows == old(overflows)
      ensures ok ==>
                && Balance() == old(Balance())
                && overflows == old(overflows) + if |old(ram)| == ring.Length && !spilled then 1 else 0
      ensures ring.Length > 0 && rec.kind <= EVENT && !ok ==>
                Balance() == old(Balance()) + Refusals(|old(Persistent())|) && overflows == old(overflows) + 1
      ensures flash.reliable || |old(ram)| < ring.Length ==> flash.faulted == old(flash.faulted)
    {
      if ring.Length == 0 || PayloadLen(rec.kind) == 0 {
        return false, false;
      }
      ghost var p, r := Persistent(), ram;
      ok, spilled := PutInTiers(rec);
      OneQueue(p, r, rec, ring.Length, Capacity() - ring.Length);
    }

    /** buffer_mgr_peek */
    method Peek() returns (out: Option<Record>)
      requires Valid()
      ensures out == if ram == [] then None else Some(ram[0])
    {
      if count == 0 {
        return None;
      }
      Open();
      return Some(ring[tail]);
    }

    /** buffer_mgr_consume */
    method Consume() returns (ok: bool)
      requires Valid()
      modifies this
      ensures Valid() && Persistent() == old(Persistent()) && Balance() == old(Balance())
      ensures ok == (old(ram) != []) && ram == if ok then old(ram)[1..] else old(ram)
    {
      if count == 0 {
        return false;
      }
      DropOldest();
      dequeued := dequeued + 1;
      return true;
    }

    /** persistent_buffer_peek */
    method PeekPersistent() returns (out: Option<Record>)
      requires Valid()
      modifies flash, flash.flash
      ensures Valid() && ram == old(ram) && Balance() == old(Balance())
      ensures if old(Persistent()) == [] then out == None && Persistent() == []
              else out == old(Persistent())[0]
                   && Persistent() == if out == None then old(Persistent())[1..] else old(Persistent())
    {
      out := flash.Peek();
    }

    /** persistent_buffer_consume */
    method ConsumePersistent() returns (ok: bool)
      requires Valid()
      modifies flash, flash.flash
      ensures Valid() && ram == old(ram) && Balance() == old(Balance())
      ensures ok == (old(Persistent()) != [])
      ensures Persistent() == if ok then old(Persistent())[1..] else old(Persistent())
    {
      ok := flash.Consume();
    }
  }

  /** A power cycle: RAM is lost, and the late init of a new instance on the same rows brings back every
      persistent record. */
  method PowerCycle(b: BufferManager, capacity: nat) returns (c: BufferManager)
    requires b.Valid() && b.persistentReady && !b.flash.stale
    modifies b.flash.flash
    ensures fresh(c) && c.Valid() && c.persistentReady && c.ring.Length == capacity
    ensures c.Contents() == old(b.Persistent())
  {
    b.flash.Described();
    var f := b.flash;
    var g := new FlashBuffer(f.crc, f.maxRecords, f.dropOldest, f.reliable, f.flash);
    c := new BufferManager(capacity, g);
    c.LateInit();
  }
}

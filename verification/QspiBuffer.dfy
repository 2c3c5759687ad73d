/** The QSPI persistent ring (qspi_buffer.c): the record ring of QspiLayout kept by the metadata
    journal of QspiJournal.

    What the driver does when the flash obeys is a function of its state.  What is promised of
    the ring is proved of that function here, and QspiDriver proves that the code computes it. */
module QspiBuffer {
  import opened Words
  import opened Records
  import opened QspiLayout
  import opened QspiJournal

  /** The queue a reboot on this device content would see. */
  function QueueIn(crc: Checksum, mem: seq<byte>): Option<seq<Record>>
    requires |mem| == DEVICE
  {
    match Recover(crc, mem)
    case Nothing => None
    case Best(e, _, _) => ReadChain(crc, mem, e.tail, e.count)
  }

  // ---------------------------------------------------------------- states between operations

  ghost predicate Describes(meta: Entry, n: nat, tail: Pos, head: Pos) {
    meta.head == Place(head) && meta.tail == Place(tail) && meta.count == n
  }

  /** A device on which a reboot finds exactly `items`. */
  ghost predicate Holding(crc: Checksum, mem: seq<byte>, sector: nat, index: nat, meta: Entry, items: seq<Item>,
                          tail: Pos, head: Pos) {
    && |mem| == DEVICE && Holds(JournalOf(crc, mem), sector, index, meta)
    && Live(crc, mem, items, tail, head)
    && Describes(meta, |items|, tail, head)
  }

  lemma RebootReads(crc: Checksum, m: seq<byte>, e: Entry, items: seq<Item>, tail: Pos, head: Pos)
    requires RebootsTo(crc, m, e) && Chain(crc, m, items, tail, head)
    requires Describes(e, |items|, tail, head)
    ensures QueueIn(crc, m) == Some(RecordsOf(items))
  {
    var s, i :| Newest(JournalOf(crc, m), s, i, e);
    RecoverExact(crc, m, s, i, e);
    ChainReads(crc, m, items, tail, head);
  }

  /** The live part of the ring does not depend on the journal sectors. */
  lemma RingFrame(crc: Checksum, mem: seq<byte>, m: seq<byte>, items: seq<Item>, tail: Pos, head: Pos)
    requires Live(crc, mem, items, tail, head) && SameData(m, mem)
    ensures Live(crc, m, items, tail, head)
    ensures Fresh(mem, head) ==> Fresh(m, head)
  {
    ChainFrame(crc, mem, m, items, tail, head, tail);
  }

  lemma HoldingReboots(crc: Checksum, mem: seq<byte>, sector: nat, index: nat, meta: Entry, items: seq<Item>,
                       tail: Pos, head: Pos)
    requires Holding(crc, mem, sector, index, meta, items, tail, head)
    ensures Recover(crc, mem) == Best(meta, sector, index - 1)
    ensures QueueIn(crc, mem) == Some(RecordsOf(items))
  {
    RecoverExact(crc, mem, sector, index - 1, meta);
    RebootReads(crc, mem, meta, items, tail, head);
  }

  lemma SaneCount(crc: Checksum, mem: seq<byte>, items: seq<Item>, tail: Pos, head: Pos)
    requires Live(crc, mem, items, tail, head)
    ensures |items| <= MAX_POSSIBLE_RECORDS
    ensures tail.off < SECTOR && head.off < SECTOR && Before(tail, head)
  {
    ChainRoom(crc, mem, items, tail, head);
    ChainGrows(crc, mem, items, tail, head);
  }

  /** Replacing the metadata: the new ring on the new journal, and the old or the new queue after
      a power loss. */
  lemma Rewrite(crc: Checksum, mem: seq<byte>, sector: nat, index: nat, e0: Entry, e: Entry, r: Appended,
                items0: seq<Item>, tail0: Pos, head0: Pos, items: seq<Item>, tail: Pos, head: Pos)
    requires Holding(crc, mem, sector, index, e0, items0, tail0, head0)
    requires Live(crc, mem, items, tail, head) && Describes(e, |items|, tail, head) && e.seqNo == e0.seqNo + 1
    requires r == Append(crc, mem, sector, index, e)
    ensures Holding(crc, r.mem, r.sector, r.index, e, items, tail, head)
    ensures Fresh(mem, head) ==> Fresh(r.mem, head)
    ensures Sane(e)
    ensures forall m :: m in AppendTears(crc, mem, sector, index, e) ==>
              |m| == DEVICE && (QueueIn(crc, m) == Some(RecordsOf(items0)) || QueueIn(crc, m) == Some(RecordsOf(items)))
  {
    SaneCount(crc, mem, items, tail, head);
    PlaceFacts(tail);
    PlaceFacts(head);
    AppendHolds(crc, mem, sector, index, e, r);
    RingFrame(crc, mem, r.mem, items, tail, head);
    forall m | m in AppendTears(crc, mem, sector, index, e)
      ensures |m| == DEVICE && (QueueIn(crc, m) == Some(RecordsOf(items0)) || QueueIn(crc, m) == Some(RecordsOf(items)))
    {
      TornRewrite(crc, mem, sector, index, e0, e, items0, tail0, head0, items, tail, head, m);
    }
  }

  lemma TornRewrite(crc: Checksum, mem: seq<byte>, sector: nat, index: nat, e0: Entry, e: Entry,
                    items0: seq<Item>, tail0: Pos, head0: Pos, items: seq<Item>, tail: Pos, head: Pos, m: seq<byte>)
    requires Holding(crc, mem, sector, index, e0, items0, tail0, head0)
    requires Live(crc, mem, items, tail, head) && Describes(e, |items|, tail, head) && e.seqNo == e0.seqNo + 1
    requires Sane(e)
    requires m in AppendTears(crc, mem, sector, index, e)
    ensures |m| == DEVICE && (QueueIn(crc, m) == Some(RecordsOf(items0)) || QueueIn(crc, m) == Some(RecordsOf(items)))
  {
    AppendTearsData(crc, mem, sector, index, e, m);
    AppendTearsReboot(crc, mem, sector, index, e0, e, m);
    RingFrame(crc, mem, m, items0, tail0, head0);
    RingFrame(crc, mem, m, items, tail, head);
    if RebootsTo(crc, m, e0) {
      RebootReads(crc, m, e0, items0, tail0, head0);
    } else {
      RebootReads(crc, m, e, items, tail, head);
    }
  }

  /** A change after the head, torn or complete, is not seen by a reboot. */
  lemma DataTear(crc: Checksum, mem: seq<byte>, sector: nat, index: nat, meta: Entry, items: seq<Item>,
                 tail: Pos, head: Pos,
                 q: Pos, n: nat, m: seq<byte>)
    requires Holding(crc, mem, sector, index, meta, items, tail, head)
    requires Clear(tail, head, q, n) && SameOutside(m, mem, Place(q), n)
    ensures Holding(crc, m, sector, index, meta, items, tail, head)
    ensures QueueIn(crc, m) == Some(RecordsOf(items))
  {
    ChainGrows(crc, mem, items, tail, head);
    OutsideLive(mem, m, tail, head, q, n);
    ChainFrame(crc, mem, m, items, tail, head, tail);
    JournalFrame(crc, mem, m, Place(q), n);
    HoldingReboots(crc, m, sector, index, meta, items, tail, head);
  }

  /** What consuming the oldest record leaves is again a ring. */
  lemma WithoutOldest(crc: Checksum, mem: seq<byte>, items: seq<Item>, tail: Pos, head: Pos)
    requires Live(crc, mem, items, tail, head) && items != []
    ensures AfterRecord(mem, Place(tail)) == Place(End(items[0]))
    ensures Live(crc, mem, items[1..], End(items[0]), head)
    ensures RecordsOf(items[1..]) == RecordsOf(items)[1..]
  {
    ReadOldest(crc, mem, items, tail, head);
    ChainGrows(crc, mem, items[1..], End(items[0]), head);
  }

  ghost predicate Sees(crc: Checksum, m: seq<byte>, queue: seq<Record>) {
    |m| == DEVICE && QueueIn(crc, m) == Some(queue)
  }

  /** Writing the record before its metadata: a reboot still sees the old queue. */
  lemma WriteStep(crc: Checksum, mem: seq<byte>, sector: nat, index: nat, meta: Entry, items: seq<Item>,
                  tail: Pos, head: Pos,
                  rec: Record, q: Pos, m1: seq<byte>)
    requires Holding(crc, mem, sector, index, meta, items, tail, head) && rec.kind <= EVENT
    requires q == head || (q == NextPos(head) && Padded(mem, head))
    requires Clear(tail, head, q, Size(rec)) && Fresh(mem, q)
    requires m1 == Programmed(mem, Place(q), Encode(crc, rec))
    ensures Holding(crc, m1, sector, index, meta, items, tail, head)
    ensures Live(crc, m1, items + [Item(q, rec)], tail, End(Item(q, rec)))
    ensures q.off + Size(rec) < SECTOR ==> Fresh(m1, End(Item(q, rec)))
    ensures forall m :: TornWrite(crc, mem, m, Place(q), Encode(crc, rec)) ==> Sees(crc, m, RecordsOf(items))
  {
    forall m | TornWrite(crc, mem, m, Place(q), Encode(crc, rec)) ensures Sees(crc, m, RecordsOf(items)) {
      DataTear(crc, mem, sector, index, meta, items, tail, head, q, Size(rec), m);
    }
    PutAppends(crc, mem, items, tail, head, rec, q);
    DataTear(crc, mem, sector, index, meta, items, tail, head, q, Size(rec), m1);
  }

  /** Erasing the sector the head is about to enter. */
  lemma EnterStep(crc: Checksum, mem: seq<byte>, sector: nat, index: nat, meta: Entry, items: seq<Item>,
                  tail: Pos, head: Pos, m1: seq<byte>)
    requires Holding(crc, mem, sector, index, meta, items, tail, head) && Fresh(mem, head)
    requires head.sec + 1 <= tail.sec + 252 && 0 < head.off && LeavesMagicRoom(head)
    requires m1 == Erased(mem, Place(NextPos(head)), SECTOR)
    ensures Holding(crc, m1, sector, index, meta, items, tail, head)
    ensures Padded(m1, head) && Fresh(m1, NextPos(head))
    ensures forall m :: TornErase(crc, mem, m, Place(NextPos(head))) ==> Sees(crc, m, RecordsOf(items))
  {
    var q := NextPos(head);
    forall m | TornErase(crc, mem, m, Place(q)) ensures Sees(crc, m, RecordsOf(items)) {
      DataTear(crc, mem, sector, index, meta, items, tail, head, q, SECTOR, m);
    }
    EraseKeeps(crc, mem, items, tail, head);
    DataTear(crc, mem, sector, index, meta, items, tail, head, q, SECTOR, m1);
  }

  // ---------------------------------------------------------------- the driver as a function of its state

  /** s_meta_cache, s_meta_active_sector, s_meta_index and the device. */
  datatype Ring = Ring(mem: seq<byte>, meta: Entry, active: nat, index: nat)

  predicate Bounded(s: Ring) {
    |s.mem| == DEVICE && s.active < 2 && s.index <= SLOTS && Placed(s.meta)
  }

  function Journaled(crc: Checksum, s: Ring, e: Entry): (r: Ring)
    requires Bounded(s) && Placed(e)
    ensures Bounded(r) && r.meta == e
  {
    var a := Append(crc, s.mem, s.active, s.index, e);
    Ring(a.mem, e, a.sector, a.index)
  }

  function ConsumedEntry(s: Ring): (e: Entry)
    requires Bounded(s) && s.meta.count > 0
    ensures Placed(e)
  {
    Entry(Inc32(s.meta.seqNo), s.meta.head, AfterRecord(s.mem, s.meta.tail), s.meta.count - 1, s.meta.totalWrites)
  }

  /** qspi_buffer_consume_internal */
  function Consumed(crc: Checksum, s: Ring): (r: Ring)
    requires Bounded(s) && s.meta.count > 0
    ensures Bounded(r) && r.meta.count == s.meta.count - 1 && r.meta.head == s.meta.head
  {
    Journaled(crc, s, ConsumedEntry(s))
  }

  predicate Room(s: Ring, req: nat) {
    RoomAvailable(s.meta.count, s.meta.head, s.meta.tail, req)
  }

  /** The drop loop of qspi_buffer_put_record. */
  function MakeRoom(crc: Checksum, s: Ring, req: nat): (r: Ring)
    requires Bounded(s)
    ensures Bounded(r) && Room(r, req) && r.meta.head == s.meta.head && r.meta.count <= s.meta.count
    decreases s.meta.count
  {
    if Room(s, req) then s else MakeRoom(crc, Consumed(crc, s), req)
  }

  /** Erasing the sector the record goes to, when it is a new one. */
  function Entered(s: Ring, req: nat): (r: Ring)
    requires Bounded(s)
    ensures Bounded(r) && r.meta == s.meta
  {
    if s.meta.head % SECTOR + req > SECTOR then s.(mem := Erased(s.mem, NextSector(s.meta.head), SECTOR)) else s
  }

  function Written(crc: Checksum, s: Ring, rec: Record): (r: Ring)
    requires Bounded(s)
    ensures Bounded(r) && r.meta == s.meta
  {
    s.(mem := Programmed(s.mem, Target(s.meta.head, Size(rec)), Encode(crc, rec)))
  }

  function PutEntry(s: Ring, req: nat): (e: Entry)
    requires Bounded(s) && 0 < req < SECTOR
    ensures Placed(e)
  {
    Entry(Inc32(s.meta.seqNo), Wrap(Target(s.meta.head, req) + req), s.meta.tail,
          Inc32(s.meta.count), Inc32(s.meta.totalWrites))
  }

  /** The part of a put after the drop loop. */
  function PutRest(crc: Checksum, s: Ring, rec: Record): (r: Ring)
    requires Bounded(s)
    ensures Bounded(r)
  {
    var w := Written(crc, Entered(s, Size(rec)), rec);
    Journaled(crc, w, PutEntry(w, Size(rec)))
  }

  /** qspi_buffer_put_record on a record that has a payload. */
  function Put(crc: Checksum, s: Ring, rec: Record): (r: Ring)
    requires Bounded(s)
    ensures Bounded(r)
  {
    PutRest(crc, MakeRoom(crc, s, Size(rec)), rec)
  }

  // ---------------------------------------------------------------- where the power can go

  ghost function ConsumeTears(crc: Checksum, s: Ring): iset<seq<byte>>
    requires Bounded(s) && s.meta.count > 0
  {
    AppendTears(crc, s.mem, s.active, s.index, ConsumedEntry(s))
  }

  ghost function RoomTears(crc: Checksum, s: Ring, req: nat): iset<seq<byte>>
    requires Bounded(s)
    decreases s.meta.count
  {
    if Room(s, req) then iset{} else ConsumeTears(crc, s) + RoomTears(crc, Consumed(crc, s), req)
  }

  ghost function EnterTears(crc: Checksum, s: Ring, req: nat): iset<seq<byte>>
    requires Bounded(s)
  {
    if s.meta.head % SECTOR + req > SECTOR then iset m | TornErase(crc, s.mem, m, NextSector(s.meta.head)) else iset{}
  }

  ghost function WriteTears(crc: Checksum, s: Ring, rec: Record): iset<seq<byte>>
    requires Bounded(s)
  {
    iset m | TornWrite(crc, s.mem, m, Target(s.meta.head, Size(rec)), Encode(crc, rec))
  }

  ghost function RestTears(crc: Checksum, s: Ring, rec: Record): iset<seq<byte>>
    requires Bounded(s)
  {
    var e := Entered(s, Size(rec));
    var w := Written(crc, e, rec);
    EnterTears(crc, s, Size(rec)) + WriteTears(crc, e, rec)
        + AppendTears(crc, w.mem, w.active, w.index, PutEntry(w, Size(rec)))
  }

  /** Every device content that a power loss inside a put can leave. */
  ghost function PutTears(crc: Checksum, s: Ring, rec: Record): iset<seq<byte>>
    requires Bounded(s)
  {
    RoomTears(crc, s, Size(rec)) + RestTears(crc, MakeRoom(crc, s, Size(rec)), rec)
  }

  // ---------------------------------------------------------------- what the driver keeps

  /** A ring that takes records: the rest of the head's sector is blank and the tail is in another sector of
      the device, or in the same one behind it. */
  ghost predicate Represents(crc: Checksum, s: Ring, items: seq<Item>, tail: Pos, head: Pos) {
    && Holding(crc, s.mem, s.active, s.index, s.meta, items, tail, head)
    && Fresh(s.mem, head) && head.sec <= tail.sec + 252
  }

  lemma HoldingBounded(crc: Checksum, s: Ring, items: seq<Item>, tail: Pos, head: Pos)
    requires Holding(crc, s.mem, s.active, s.index, s.meta, items, tail, head)
    ensures Bounded(s) && s.meta.count == |items| && s.meta.head == Place(head) && s.meta.tail == Place(tail)
    ensures tail.off < SECTOR && head.off < SECTOR && Before(tail, head)
    ensures items == [] ==> head == tail
  {
    SaneCount(crc, s.mem, items, tail, head);
    PlaceFacts(tail);
    PlaceFacts(head);
  }

  /** Journaling new metadata over the same data: the ring it describes, and the old or the new
      queue after a power loss. */
  lemma JournaledKeeps(crc: Checksum, s: Ring, e: Entry, items0: seq<Item>, tail0: Pos, head0: Pos,
                       items: seq<Item>, tail: Pos, head: Pos)
    requires Holding(crc, s.mem, s.active, s.index, s.meta, items0, tail0, head0) && Placed(s.meta) && Placed(e)
    requires Live(crc, s.mem, items, tail, head)
    requires Describes(e, |items|, tail, head) && e.seqNo == s.meta.seqNo + 1
    ensures var r := Journaled(crc, s, e);
            && Holding(crc, r.mem, r.active, r.index, r.meta, items, tail, head)
            && (Fresh(s.mem, head) ==> Fresh(r.mem, head))
    ensures forall m :: m in AppendTears(crc, s.mem, s.active, s.index, e) ==>
              Sees(crc, m, RecordsOf(items0)) || Sees(crc, m, RecordsOf(items))
  {
    Rewrite(crc, s.mem, s.active, s.index, s.meta, e, Append(crc, s.mem, s.active, s.index, e),
            items0, tail0, head0, items, tail, head);
  }

  lemma ConsumedEntryIs(crc: Checksum, s: Ring, items: seq<Item>, tail: Pos, head: Pos) returns (e: Entry)
    requires Holding(crc, s.mem, s.active, s.index, s.meta, items, tail, head) && items != []
    requires s.meta.seqNo + 1 < WORD
    ensures Bounded(s) && s.meta.count == |items| && e == ConsumedEntry(s)
    ensures Describes(e, |items| - 1, End(items[0]), head) && e.seqNo == s.meta.seqNo + 1
  {
    HoldingBounded(crc, s, items, tail, head);
    WithoutOldest(crc, s.mem, items, tail, head);
    e := Entry(s.meta.seqNo + 1, s.meta.head, Place(End(items[0])), s.meta.count - 1, s.meta.totalWrites);
    assert Describes(e, |items| - 1, End(items[0]), head);
  }

  lemma ConsumeHolds(crc: Checksum, s: Ring, items: seq<Item>, tail: Pos, head: Pos)
    requires Holding(crc, s.mem, s.active, s.index, s.meta, items, tail, head) && items != []
    requires s.meta.seqNo + 1 < WORD
    ensures Bounded(s) && s.meta.count == |items|
    ensures var r := Consumed(crc, s);
            && Holding(crc, r.mem, r.active, r.index, r.meta, items[1..], End(items[0]), head)
            && (Fresh(s.mem, head) ==> Fresh(r.mem, head))
            && r.meta.seqNo == s.meta.seqNo + 1
    ensures forall m :: m in ConsumeTears(crc, s) ==>
              Sees(crc, m, RecordsOf(items)) || Sees(crc, m, RecordsOf(items)[1..])
  {
    HoldingBounded(crc, s, items, tail, head);
    var e := ConsumedEntryIs(crc, s, items, tail, head);
    WithoutOldest(crc, s.mem, items, tail, head);
    JournaledKeeps(crc, s, e, items, tail, head, items[1..], End(items[0]), head);
  }

  lemma ConsumeKeeps(crc: Checksum, s: Ring, items: seq<Item>, tail: Pos, head: Pos)
    requires Represents(crc, s, items, tail, head) && items != [] && s.meta.seqNo + 1 < WORD
    ensures Bounded(s) && s.meta.count == |items|
    ensures Represents(crc, Consumed(crc, s), items[1..], End(items[0]), head)
    ensures Consumed(crc, s).meta.seqNo == s.meta.seqNo + 1
    ensures forall m :: m in ConsumeTears(crc, s) ==>
              Sees(crc, m, RecordsOf(items)) || Sees(crc, m, RecordsOf(items)[1..])
  {
    ConsumeHolds(crc, s, items, tail, head);
  }

  /** A reboot sees what is left of `queue` after dropping at most its first `k` records. */
  ghost predicate SeesRest(crc: Checksum, m: seq<byte>, queue: seq<Record>, k: nat) {
    exists j :: 0 <= j <= k && j <= |queue| && Sees(crc, m, queue[j..])
  }

  lemma SeesRestFrom(crc: Checksum, m: seq<byte>, queue: seq<Record>, j: nat, k: nat)
    requires j <= k && j <= |queue| && Sees(crc, m, queue[j..])
    ensures SeesRest(crc, m, queue, k)
  {
  }

  lemma RoomIs(crc: Checksum, s: Ring, items: seq<Item>, tail: Pos, head: Pos, req: nat)
    requires Represents(crc, s, items, tail, head) && 0 < req < SECTOR
    ensures Bounded(s) && s.meta.count == |items|
    ensures Room(s, req) <==> TargetPos(head, req).sec <= tail.sec + 252
  {
    HoldingBounded(crc, s, items, tail, head);
    RoomMeans(s.meta.count, tail, head, req);
  }

  /** DROP LOOP.  It ends, never runs out of records to drop, makes room, and a power loss inside
      it only ever loses records it drops. */
  lemma {:induction false} RoomKeeps(crc: Checksum, s: Ring, items: seq<Item>, tail: Pos, head: Pos, req: nat)
    returns (k: nat, t: Pos)
    requires Represents(crc, s, items, tail, head) && 0 < req < SECTOR && s.meta.seqNo + |items| < WORD
    ensures Bounded(s) && k <= |items|
    ensures Represents(crc, MakeRoom(crc, s, req), items[k..], t, head)
    ensures MakeRoom(crc, s, req).meta.seqNo == s.meta.seqNo + k
    ensures TargetPos(head, req).sec <= t.sec + 252
    ensures k > 0 ==> !Room(s, req)
    ensures forall m :: m in RoomTears(crc, s, req) ==> SeesRest(crc, m, RecordsOf(items), k)
    decreases |items|
  {
    RoomIs(crc, s, items, tail, head, req);
    if Room(s, req) {
      k, t := 0, tail;
      assert items[0..] == items;
    } else {
      k, t := RoomStep(crc, s, items, tail, head, req);
    }
  }

  lemma {:induction false} RoomStep(crc: Checksum, s: Ring, items: seq<Item>, tail: Pos, head: Pos, req: nat)
    returns (k: nat, t: Pos)
    requires Represents(crc, s, items, tail, head) && 0 < req < SECTOR && s.meta.seqNo + |items| < WORD
    requires Bounded(s) && !Room(s, req)
    ensures k <= |items|
    ensures Represents(crc, MakeRoom(crc, s, req), items[k..], t, head)
    ensures MakeRoom(crc, s, req).meta.seqNo == s.meta.seqNo + k
    ensures TargetPos(head, req).sec <= t.sec + 252
    ensures forall m :: m in RoomTears(crc, s, req) ==> SeesRest(crc, m, RecordsOf(items), k)
    decreases |items|, 0
  {
    HoldingBounded(crc, s, items, tail, head);
    ConsumeKeeps(crc, s, items, tail, head);
    var k';
    k', t := RoomKeeps(crc, Consumed(crc, s), items[1..], End(items[0]), head, req);
    k := k' + 1;
    assert items[1..][k'..] == items[k..];
    RoomTear(crc, s, items, req, k');
  }

  lemma RoomTear(crc: Checksum, s: Ring, items: seq<Item>, req: nat, k: nat)
    requires Bounded(s) && !Room(s, req) && items != []
    requires forall m :: m in ConsumeTears(crc, s) ==>
            Sees(crc, m, RecordsOf(items)) || Sees(crc, m, RecordsOf(items)[1..])
    requires forall m :: m in RoomTears(crc, Consumed(crc, s), req) ==> SeesRest(crc, m, RecordsOf(items[1..]), k)
    ensures forall m :: m in RoomTears(crc, s, req) ==> SeesRest(crc, m, RecordsOf(items), k + 1)
  {
    var queue := RecordsOf(items);
    assert RecordsOf(items[1..]) == queue[1..];
    forall m | m in RoomTears(crc, s, req) ensures SeesRest(crc, m, queue, k + 1) {
      if m in ConsumeTears(crc, s) {
        assert queue[0..] == queue;
        SeesRestFrom(crc, m, queue, if Sees(crc, m, queue) then 0 else 1, k + 1);
      } else {
        SeesRestLater(crc, m, queue, k);
      }
    }
  }

  lemma SeesRestLater(crc: Checksum, m: seq<byte>, queue: seq<Record>, k: nat)
    requires queue != [] && SeesRest(crc, m, queue[1..], k)
    ensures SeesRest(crc, m, queue, k + 1)
  {
    var j :| 0 <= j <= k && j <= |queue[1..]| && Sees(crc, m, queue[1..][j..]);
    LaterStill(queue, j);
    SeesRestFrom(crc, m, queue, j + 1, k + 1);
  }

  lemma LaterStill(queue: seq<Record>, j: nat)
    requires j < |queue|
    ensures queue[1..][j..] == queue[j + 1..]
  {
  }

  /** Ready to write: the record's bytes are blank and the record will be found there. */
  ghost predicate Prepared(crc: Checksum, s: Ring, items: seq<Item>, tail: Pos, head: Pos, q: Pos) {
    && Holding(crc, s.mem, s.active, s.index, s.meta, items, tail, head)
    && (q == head || (q == NextPos(head) && Padded(s.mem, head)))
    && q.sec <= tail.sec + 252 && Fresh(s.mem, q)
  }

  lemma EnterKeeps(crc: Checksum, s: Ring, items: seq<Item>, tail: Pos, head: Pos, req: nat)
    requires Represents(crc, s, items, tail, head) && LeavesMagicRoom(head) && 0 < req < SECTOR
    requires TargetPos(head, req).sec <= tail.sec + 252
    ensures Bounded(s) && Prepared(crc, Entered(s, req), items, tail, head, TargetPos(head, req))
    ensures Target(s.meta.head, req) == Place(TargetPos(head, req))
    ensures forall m :: m in EnterTears(crc, s, req) ==> Sees(crc, m, RecordsOf(items))
  {
    HoldingBounded(crc, s, items, tail, head);
    RoomMeans(s.meta.count, tail, head, req);
    PlaceFacts(head);
    if head.off + req > SECTOR {
      EnterStep(crc, s.mem, s.active, s.index, s.meta, items, tail, head, Entered(s, req).mem);
    }
  }

  lemma WriteKeeps(crc: Checksum, s: Ring, items: seq<Item>, tail: Pos, head: Pos, rec: Record, q: Pos)
    requires Prepared(crc, s, items, tail, head, q) && rec.kind <= EVENT && q.off + Size(rec) <= SECTOR
    requires Bounded(s) && Target(s.meta.head, Size(rec)) == Place(q) && Before(head, q)
    ensures var w := Written(crc, s, rec);
            && Holding(crc, w.mem, w.active, w.index, w.meta, items, tail, head)
            && Live(crc, w.mem, items + [Item(q, rec)], tail, End(Item(q, rec)))
            && (q.off + Size(rec) < SECTOR ==> Fresh(w.mem, End(Item(q, rec))))
    ensures forall m :: m in WriteTears(crc, s, rec) ==> Sees(crc, m, RecordsOf(items))
  {
    WriteStep(crc, s.mem, s.active, s.index, s.meta, items, tail, head, rec, q, Written(crc, s, rec).mem);
  }

  lemma CommitEntry(crc: Checksum, w: Ring, items: seq<Item>, tail: Pos, head: Pos, rec: Record, q: Pos)
    requires Bounded(w) && Holding(crc, w.mem, w.active, w.index, w.meta, items, tail, head)
    requires Live(crc, w.mem, items + [Item(q, rec)], tail, End(Item(q, rec)))
    requires Target(w.meta.head, Size(rec)) == Place(q) && w.meta.seqNo + 1 < WORD
    ensures var e := PutEntry(w, Size(rec));
            Describes(e, |items| + 1, tail, End(Item(q, rec))) && e.seqNo == w.meta.seqNo + 1
  {
    var it := Item(q, rec);
    SaneCount(crc, w.mem, items + [it], tail, End(it));
    StoredLast(crc, w.mem, items, tail, it);
    EndPlace(it);
  }

  lemma {:induction false} StoredLast(crc: Checksum, mem: seq<byte>, items: seq<Item>, tail: Pos, it: Item)
    requires Chain(crc, mem, items + [it], tail, End(it))
    ensures it.at.off + Size(it.rec) <= SECTOR
    decreases |items|
  {
    var all := items + [it];
    if items == [] {
      assert all[0] == it;
    } else {
      assert all[1..] == items[1..] + [it];
      StoredLast(crc, mem, items[1..], End(items[0]), it);
    }
  }

  lemma CommitKeeps(crc: Checksum, w: Ring, items: seq<Item>, tail: Pos, head: Pos, rec: Record, q: Pos)
    requires Bounded(w) && Holding(crc, w.mem, w.active, w.index, w.meta, items, tail, head)
    requires Live(crc, w.mem, items + [Item(q, rec)], tail, End(Item(q, rec)))
    requires Target(w.meta.head, Size(rec)) == Place(q) && w.meta.seqNo + 1 < WORD
    ensures var r, it := Journaled(crc, w, PutEntry(w, Size(rec))), Item(q, rec);
            && Reads(crc, r, RecordsOf(items) + [rec])
            && (Fresh(w.mem, End(it)) && End(it).sec <= tail.sec + 252 ==> Keeps(crc, r, RecordsOf(items) + [rec]))
    ensures forall m :: m in AppendTears(crc, w.mem, w.active, w.index, PutEntry(w, Size(rec))) ==>
              Sees(crc, m, RecordsOf(items)) || Sees(crc, m, RecordsOf(items) + [rec])
  {
    var it := Item(q, rec);
    CommitEntry(crc, w, items, tail, head, rec, q);
    assert RecordsOf(items + [it]) == RecordsOf(items) + [rec];
    JournaledKeeps(crc, w, PutEntry(w, Size(rec)), items, tail, head, items + [it], tail, End(it));
    Closed(crc, Journaled(crc, w, PutEntry(w, Size(rec))), items + [it], tail, End(it));
  }

  // ---------------------------------------------------------------- the ring is a FIFO

  /** What peek and consume hand out, and what a reboot finds, is exactly `queue`. */
  ghost predicate Reads(crc: Checksum, s: Ring, queue: seq<Record>) {
    Folded(4, crc, s, queue, false)
  }

  /** And the ring is sound: records put next go onto blank flash. */
  ghost predicate Keeps(crc: Checksum, s: Ring, queue: seq<Record>) {
    Folded(4, crc, s, queue, true)
  }

  /** Four folds deep, so that proofs look inside only through Opened, ReadsBounded and Closed. */
  ghost predicate Folded(n: nat, crc: Checksum, s: Ring, queue: seq<Record>, sound: bool)
    decreases n, queue
  {
    if n > 0 then Folded(n - 1, crc, s, queue, sound)
    else
      exists items, tail, head ::
        && Holding(crc, s.mem, s.active, s.index, s.meta, items, tail, head) && RecordsOf(items) == queue
        && (sound ==> Represents(crc, s, items, tail, head))
  }

  lemma Unfolded(crc: Checksum, s: Ring, queue: seq<Record>, sound: bool)
    ensures Folded(4, crc, s, queue, sound) <==> Folded(0, crc, s, queue, sound)
  {
    assert Folded(3, crc, s, queue, sound) <==> Folded(2, crc, s, queue, sound);
    assert Folded(2, crc, s, queue, sound) <==> Folded(1, crc, s, queue, sound);
    assert Folded(1, crc, s, queue, sound) <==> Folded(0, crc, s, queue, sound);
  }

  lemma KeepsReads(crc: Checksum, s: Ring, queue: seq<Record>)
    requires Keeps(crc, s, queue)
    ensures Reads(crc, s, queue)
  {
    var items, tail, head := Opened(crc, s, queue);
    Closed(crc, s, items, tail, head);
  }

  lemma Opened(crc: Checksum, s: Ring, queue: seq<Record>) returns (items: seq<Item>, tail: Pos, head: Pos)
    requires Keeps(crc, s, queue)
    ensures Represents(crc, s, items, tail, head) && RecordsOf(items) == queue
  {
    Unfolded(crc, s, queue, true);
    items, tail, head :| Represents(crc, s, items, tail, head) && RecordsOf(items) == queue;
  }

  lemma Closed(crc: Checksum, s: Ring, items: seq<Item>, tail: Pos, head: Pos)
    requires Holding(crc, s.mem, s.active, s.index, s.meta, items, tail, head)
    ensures Reads(crc, s, RecordsOf(items))
    ensures Fresh(s.mem, head) && head.sec <= tail.sec + 252 ==> Keeps(crc, s, RecordsOf(items))
  {
    Unfolded(crc, s, RecordsOf(items), true);
    Unfolded(crc, s, RecordsOf(items), false);
  }

  /** A sector the head is in still has room for a magic word. */
  predicate HasMagicRoom(s: Ring) {
    s.meta.head % SECTOR <= SECTOR - 4
  }

  /** The named precondition on the layout: the put leaves room for one magic word behind it. */
  predicate LeavesRoom(s: Ring, req: nat) {
    Target(s.meta.head, req) % SECTOR + req <= SECTOR - 4
  }

  lemma PutWithRoom(crc: Checksum, s: Ring, items: seq<Item>, tail: Pos, head: Pos, rec: Record)
    requires Represents(crc, s, items, tail, head) && LeavesMagicRoom(head) && rec.kind <= EVENT
    requires TargetPos(head, Size(rec)).sec <= tail.sec + 252 && s.meta.seqNo + 1 < WORD
    ensures Bounded(s) && Reads(crc, PutRest(crc, s, rec), RecordsOf(items) + [rec])
    ensures TargetPos(head, Size(rec)).off + Size(rec) < SECTOR ==>
              Keeps(crc, PutRest(crc, s, rec), RecordsOf(items) + [rec])
    ensures PutRest(crc, s, rec).meta.seqNo == s.meta.seqNo + 1
    ensures forall m :: m in RestTears(crc, s, rec) ==>
            Sees(crc, m, RecordsOf(items)) || Sees(crc, m, RecordsOf(items) + [rec])
  {
    var req, q := Size(rec), TargetPos(head, Size(rec));
    EnterKeeps(crc, s, items, tail, head, req);
    var e := Entered(s, req);
    WriteKeeps(crc, e, items, tail, head, rec, q);
    CommitKeeps(crc, Written(crc, e, rec), items, tail, head, rec, q);
  }

  lemma MadeRoom(crc: Checksum, s: Ring, items: seq<Item>, tail: Pos, head: Pos, req: nat)
    returns (k: nat, r: Ring, rest: seq<Item>, t: Pos)
    requires Represents(crc, s, items, tail, head) && 0 < req < SECTOR && s.meta.seqNo + |items| < WORD
    ensures Bounded(s) && r == MakeRoom(crc, s, req) && k <= |items| && rest == items[k..]
    ensures RecordsOf(rest) == RecordsOf(items)[k..]
    ensures Represents(crc, r, rest, t, head) && r.meta.seqNo == s.meta.seqNo + k
    ensures TargetPos(head, req).sec <= t.sec + 252 && (k > 0 ==> !Room(s, req))
    ensures forall m :: m in RoomTears(crc, s, req) ==> SeesRest(crc, m, RecordsOf(items), k)
  {
    k, t := RoomKeeps(crc, s, items, tail, head, req);
    r := MakeRoom(crc, s, req);
    rest := Dropped(items, k);
  }

  lemma Dropped(items: seq<Item>, k: nat) returns (rest: seq<Item>)
    requires k <= |items|
    ensures rest == items[k..] && RecordsOf(rest) == RecordsOf(items)[k..]
  {
    rest := items[k..];
  }

  lemma PutKeeps(crc: Checksum, s: Ring, items: seq<Item>, tail: Pos, head: Pos, rec: Record) returns (k: nat)
    requires Represents(crc, s, items, tail, head) && LeavesMagicRoom(head) && rec.kind <= EVENT
    requires s.meta.seqNo + |items| + 1 < WORD
    ensures Bounded(s) && k <= |items| && (k > 0 ==> !Room(s, Size(rec)))
    ensures Reads(crc, Put(crc, s, rec), RecordsOf(items)[k..] + [rec])
    ensures TargetPos(head, Size(rec)).off + Size(rec) < SECTOR ==>
              Keeps(crc, Put(crc, s, rec), RecordsOf(items)[k..] + [rec])
    ensures Put(crc, s, rec).meta.seqNo == s.meta.seqNo + k + 1
    ensures forall m :: m in PutTears(crc, s, rec) ==>
            SeesRest(crc, m, RecordsOf(items), k) || Sees(crc, m, RecordsOf(items)[k..] + [rec])
  {
    var r, rest, t;
    k, r, rest, t := MadeRoom(crc, s, items, tail, head, Size(rec));
    PutWithRoom(crc, r, rest, t, head, rec);
    PutTear(crc, s, r, items, rest, rec, k);
  }

  lemma PutTear(crc: Checksum, s: Ring, r: Ring, items: seq<Item>, rest: seq<Item>, rec: Record, k: nat)
    requires Bounded(s) && r == MakeRoom(crc, s, Size(rec)) && k <= |items| && rest == items[k..]
    requires forall m :: m in RoomTears(crc, s, Size(rec)) ==> SeesRest(crc, m, RecordsOf(items), k)
    requires forall m :: m in RestTears(crc, r, rec) ==>
               Sees(crc, m, RecordsOf(rest)) || Sees(crc, m, RecordsOf(rest) + [rec])
    ensures forall m :: m in PutTears(crc, s, rec) ==>
            SeesRest(crc, m, RecordsOf(items), k) || Sees(crc, m, RecordsOf(items)[k..] + [rec])
  {
    var queue := RecordsOf(items);
    assert RecordsOf(rest) == queue[k..];
    forall m | m in PutTears(crc, s, rec) ensures SeesRest(crc, m, queue, k) || Sees(crc, m, queue[k..] + [rec]) {
      if Sees(crc, m, RecordsOf(rest)) {
        SeesRestFrom(crc, m, queue, k, k);
      }
    }
  }

  lemma ReadsBounded(crc: Checksum, s: Ring, queue: seq<Record>) returns (items: seq<Item>, tail: Pos, head: Pos)
    requires Reads(crc, s, queue)
    ensures Holding(crc, s.mem, s.active, s.index, s.meta, items, tail, head) && RecordsOf(items) == queue
    ensures Bounded(s) && s.meta.count == |queue| && s.meta.tail == Place(tail) && s.meta.head == Place(head)
  {
    Unfolded(crc, s, queue, false);
    items, tail, head :|
      Holding(crc, s.mem, s.active, s.index, s.meta, items, tail, head) && RecordsOf(items) == queue;
    HoldingBounded(crc, s, items, tail, head);
  }

  /** REBOOT.  Recovery rebuilds the cached metadata, the active sector and the next index. */
  lemma RebootExact(crc: Checksum, s: Ring, queue: seq<Record>)
    requires Reads(crc, s, queue)
    ensures Bounded(s) && s.meta.count == |queue| && s.index > 0
    ensures Recover(crc, s.mem) == Best(s.meta, s.active, s.index - 1)
    ensures QueueIn(crc, s.mem) == Some(queue)
  {
    var items, tail, head := ReadsBounded(crc, s, queue);
    HoldingReboots(crc, s.mem, s.active, s.index, s.meta, items, tail, head);
  }

  /** PEEK returns the oldest record. */
  lemma PeekRefines(crc: Checksum, s: Ring, queue: seq<Record>)
    requires Reads(crc, s, queue) && queue != []
    ensures Bounded(s) && s.meta.count == |queue|
    ensures ReadRecord(crc, s.mem, s.meta.tail).Some? && ReadRecord(crc, s.mem, s.meta.tail).value.rec == queue[0]
  {
    var items, tail, head := ReadsBounded(crc, s, queue);
    ReadOldest(crc, s.mem, items, tail, head);
  }

  /** CONSUME removes exactly the oldest record; a power loss inside it loses at most that one. */
  lemma ConsumeRefines(crc: Checksum, s: Ring, queue: seq<Record>)
    requires Reads(crc, s, queue) && queue != [] && s.meta.seqNo + 1 < WORD
    ensures Bounded(s) && s.meta.count == |queue| && Consumed(crc, s).meta.seqNo == s.meta.seqNo + 1
    ensures Reads(crc, Consumed(crc, s), queue[1..])
    ensures Keeps(crc, s, queue) ==> Keeps(crc, Consumed(crc, s), queue[1..])
    ensures forall m :: m in ConsumeTears(crc, s) ==> Sees(crc, m, queue) || Sees(crc, m, queue[1..])
  {
    var items, tail, head := ReadsBounded(crc, s, queue);
    ConsumeHolds(crc, s, items, tail, head);
    Closed(crc, Consumed(crc, s), items[1..], End(items[0]), head);
    assert RecordsOf(items[1..]) == queue[1..];
    if Keeps(crc, s, queue) {
      ConsumeSound(crc, s, queue);
    }
  }

  lemma ConsumeSound(crc: Checksum, s: Ring, queue: seq<Record>)
    requires Keeps(crc, s, queue) && queue != [] && s.meta.seqNo + 1 < WORD
    ensures Bounded(s) && s.meta.count > 0 && Keeps(crc, Consumed(crc, s), queue[1..])
  {
    var items, tail, head := Opened(crc, s, queue);
    ConsumeKeeps(crc, s, items, tail, head);
    Closed(crc, Consumed(crc, s), items[1..], End(items[0]), head);
    assert RecordsOf(items[1..]) == queue[1..];
  }

  /** PUT into a sound ring appends the record, after dropping a prefix and only when there is no room; and a
      power loss at any point inside it leaves the old queue minus a dropped prefix, or the new queue.
      Unless the record fills its sector exactly the ring is sound again. */
  lemma PutRefines(crc: Checksum, s: Ring, queue: seq<Record>, rec: Record) returns (k: nat)
    requires Keeps(crc, s, queue) && HasMagicRoom(s) && rec.kind <= EVENT
    requires s.meta.seqNo + |queue| + 1 < WORD
    ensures Bounded(s) && k <= |queue| && (k > 0 ==> !Room(s, Size(rec)))
    ensures Reads(crc, Put(crc, s, rec), queue[k..] + [rec])
    ensures Target(s.meta.head, Size(rec)) % SECTOR + Size(rec) < SECTOR ==>
              Keeps(crc, Put(crc, s, rec), queue[k..] + [rec])
    ensures Put(crc, s, rec).meta.seqNo == s.meta.seqNo + k + 1
    ensures forall m :: m in PutTears(crc, s, rec) ==> SeesRest(crc, m, queue, k) || Sees(crc, m, queue[k..] + [rec])
  {
    var items, tail, head := Opened(crc, s, queue);
    RoomTarget(crc, s, items, tail, head, Size(rec));
    k := PutKeeps(crc, s, items, tail, head, rec);
  }

  /** ERASE AND WRITE SAFETY.  The sector a put erases holds no byte of a live record: whatever is
      done to it, the records left by the drop loop are read back.  And a record is programmed only
      onto erased bytes. */
  lemma PutSafety(crc: Checksum, s: Ring, queue: seq<Record>, rec: Record) returns (k: nat, r: Ring)
    requires Keeps(crc, s, queue) && HasMagicRoom(s) && s.meta.seqNo + |queue| + 1 < WORD
    ensures Bounded(s) && r == MakeRoom(crc, s, Size(rec)) && k <= |queue|
    ensures var t := Target(r.meta.head, Size(rec));
            t + Size(rec) <= DEVICE && BlankRange(Entered(r, Size(rec)).mem, t, Size(rec))
    ensures r.meta.head % SECTOR + Size(rec) > SECTOR ==>
              forall m :: SameOutside(m, r.mem, NextSector(r.meta.head), SECTOR) ==> Sees(crc, m, queue[k..])
  {
    var items, tail, head := Opened(crc, s, queue);
    var rest, t;
    k, r, rest, t := MadeRoom(crc, s, items, tail, head, Size(rec));
    SafeErase(crc, r, rest, t, head, Size(rec));
    EnterKeeps(crc, r, rest, t, head, Size(rec));
    BlankTarget(crc, Entered(r, Size(rec)), rest, t, head, Size(rec));
  }

  lemma SafeErase(crc: Checksum, r: Ring, rest: seq<Item>, t: Pos, head: Pos, req: nat)
    requires Represents(crc, r, rest, t, head) && 0 < req < SECTOR && TargetPos(head, req).sec <= t.sec + 252
    ensures Bounded(r) && r.meta.head % SECTOR == head.off
    ensures r.meta.head % SECTOR + req > SECTOR ==>
              forall m :: SameOutside(m, r.mem, NextSector(r.meta.head), SECTOR) ==> Sees(crc, m, RecordsOf(rest))
  {
    HoldingBounded(crc, r, rest, t, head);
    PlaceFacts(head);
    if r.meta.head % SECTOR + req > SECTOR {
      forall m | SameOutside(m, r.mem, NextSector(r.meta.head), SECTOR) ensures Sees(crc, m, RecordsOf(rest)) {
        DataTear(crc, r.mem, r.active, r.index, r.meta, rest, t, head, NextPos(head), SECTOR, m);
      }
    }
  }

  lemma BlankTarget(crc: Checksum, s: Ring, items: seq<Item>, tail: Pos, head: Pos, req: nat)
    requires head.off < SECTOR && 0 < req < SECTOR && Prepared(crc, s, items, tail, head, TargetPos(head, req))
    ensures Place(TargetPos(head, req)) + req <= DEVICE && BlankRange(s.mem, Place(TargetPos(head, req)), req)
  {
    PlaceFacts(TargetPos(head, req));
  }

  lemma RoomTarget(crc: Checksum, s: Ring, items: seq<Item>, tail: Pos, head: Pos, req: nat)
    requires Represents(crc, s, items, tail, head) && 0 < req < SECTOR
    ensures Target(s.meta.head, req) % SECTOR == TargetPos(head, req).off
    ensures s.meta.head % SECTOR == head.off
  {
    HoldingBounded(crc, s, items, tail, head);
    RoomMeans(s.meta.count, tail, head, req);
    PlaceFacts(head);
    PlaceFacts(TargetPos(head, req));
  }

  // ---------------------------------------------------------------- whole runs

  datatype Op = PutOp(rec: Record) | ConsumeOp

  function Apply(crc: Checksum, s: Ring, op: Op): (r: Ring)
    requires Bounded(s)
    ensures Bounded(r)
  {
    match op
    case PutOp(rec) => if PayloadLen(rec.kind) == 0 then s else Put(crc, s, rec)
    case ConsumeOp => if s.meta.count == 0 then s else Consumed(crc, s)
  }

  function Run(crc: Checksum, s: Ring, ops: seq<Op>): (r: Ring)
    requires Bounded(s)
    ensures Bounded(r)
    decreases |ops|
  {
    if ops == [] then s else Run(crc, Apply(crc, s, ops[0]), ops[1..])
  }

  /** The records a run puts, in order. */
  function PutsOf(ops: seq<Op>): seq<Record> {
    if ops == [] then []
    else PutOf(ops[0]) + PutsOf(ops[1..])
  }

  predicate NoEvents(ops: seq<Op>) {
    forall i :: 0 <= i < |ops| && ops[i].PutOp? ==> ops[i].rec.kind != EVENT
  }

  lemma PutHead(crc: Checksum, s: Ring, rec: Record)
    requires Bounded(s)
    ensures Put(crc, s, rec).meta.head == Wrap(Target(s.meta.head, Size(rec)) + Size(rec))
  {
  }

  /** The head stays at a multiple of five in its sector as long as only 75-byte telemetry and
      40-byte status records are put, and then every put leaves room for a magic word. */
  predicate Fives(h: nat) {
    h % SECTOR % 5 == 0
  }

  lemma FivesStay(h: nat, req: nat)
    requires Fives(h) && (req == 75 || req == 40)
    ensures Target(h, req) % SECTOR + req <= SECTOR - 4
    ensures Fives(Wrap(Target(h, req) + req))
  {
    var t := Target(h, req);
    NextSectorStart(h);
    FivesFit(t % SECTOR, req);
    WithinSector(t, req);
  }

  lemma NextSectorStart(h: nat)
    ensures NextSector(h) % SECTOR == 0
  {
  }

  lemma FivesFit(off: nat, req: nat)
    requires off % 5 == 0 && (req == 75 || req == 40) && off + req <= SECTOR
    ensures off + req <= SECTOR - 4 && (off + req) % 5 == 0
  {
  }

  lemma WithinSector(t: nat, req: nat)
    requires t % SECTOR + req < SECTOR
    ensures (t + req) % SECTOR == t % SECTOR + req
  {
    assert t + req == t / SECTOR * SECTOR + (t % SECTOR + req);
  }

  lemma FivesLeaveRoom(crc: Checksum, s: Ring, rec: Record)
    requires Bounded(s) && Fives(s.meta.head) && (rec.kind == TELEMETRY || rec.kind == STATUS)
    ensures LeavesRoom(s, Size(rec))
    ensures Fives(Put(crc, s, rec).meta.head)
  {
    PutHead(crc, s, rec);
    FivesStay(s.meta.head, Size(rec));
  }

  predicate Stores(op: Op) {
    op.PutOp? && PayloadLen(op.rec.kind) != 0
  }

  /** Every put of a run, whatever its kind, leaves room for a magic word. */
  predicate AllLeaveRoom(crc: Checksum, s: Ring, ops: seq<Op>)
    requires Bounded(s)
    decreases |ops|
  {
    || ops == []
    || ((Stores(ops[0]) ==> LeavesRoom(s, Size(ops[0].rec))) && AllLeaveRoom(crc, Apply(crc, s, ops[0]), ops[1..]))
  }

  /** FIFO.  Over any run of consumes and of puts that leave four bytes in their sectors, the ring is a FIFO
      that loses only a prefix. */
  lemma {:induction false} RunRefines(crc: Checksum, s: Ring, queue: seq<Record>, ops: seq<Op>)
    returns (j: nat, r: Ring)
    requires Keeps(crc, s, queue) && HasMagicRoom(s) && Bounded(s) && AllLeaveRoom(crc, s, ops)
    requires s.meta.seqNo + |queue| + 2 * |ops| < WORD
    ensures r == Run(crc, s, ops) && j <= |queue + PutsOf(ops)|
    ensures Keeps(crc, r, (queue + PutsOf(ops))[j..]) && HasMagicRoom(r)
    ensures r.meta.seqNo + |queue + PutsOf(ops)| - j <= s.meta.seqNo + |queue| + 2 * |ops|
    decreases |ops|
  {
    if ops == [] {
      j, r := 0, s;
      assert (queue + PutsOf(ops))[0..] == queue;
    } else {
      var s', queue', k := ApplyRefines(crc, s, queue, ops[0]);
      var j';
      j', r := RunRefines(crc, s', queue', ops[1..]);
      j := k + j';
      RunSplice(queue, ops, k, j');
    }
  }

  /** LAYOUT PRECONDITION, DISCHARGED.  Without event records it holds at every put. */
  lemma {:induction false} WithoutEventsRoom(crc: Checksum, s: Ring, ops: seq<Op>)
    requires Bounded(s) && Fives(s.meta.head) && NoEvents(ops)
    ensures AllLeaveRoom(crc, s, ops) && Fives(Run(crc, s, ops).meta.head)
    decreases |ops|
  {
    if ops != [] {
      if Stores(ops[0]) {
        FivesLeaveRoom(crc, s, ops[0].rec);
      }
      WithoutEventsRoom(crc, Apply(crc, s, ops[0]), ops[1..]);
    }
  }

  lemma WithoutEventsRefines(crc: Checksum, s: Ring, queue: seq<Record>, ops: seq<Op>) returns (j: nat, r: Ring)
    requires Keeps(crc, s, queue) && Bounded(s) && Fives(s.meta.head) && NoEvents(ops)
    requires s.meta.seqNo + |queue| + 2 * |ops| < WORD
    ensures r == Run(crc, s, ops) && j <= |queue + PutsOf(ops)|
    ensures Keeps(crc, r, (queue + PutsOf(ops))[j..])
  {
    WithoutEventsRoom(crc, s, ops);
    j, r := RunRefines(crc, s, queue, ops);
  }

  lemma RunSplice(queue: seq<Record>, ops: seq<Op>, k: nat, j: nat)
    requires ops != [] && k <= |queue + PutOf(ops[0])| && j <= |(queue + PutOf(ops[0]))[k..] + PutsOf(ops[1..])|
    ensures k + j <= |queue + PutsOf(ops)|
    ensures ((queue + PutOf(ops[0]))[k..] + PutsOf(ops[1..]))[j..] == (queue + PutsOf(ops))[k + j..]
  {
    ConcatAssociative(queue, PutOf(ops[0]), PutsOf(ops[1..]));
    SuffixOfSuffix(queue + PutOf(ops[0]), PutsOf(ops[1..]), k, j);
  }

  /** The records one operation puts. */
  function PutOf(op: Op): seq<Record> {
    if Stores(op) then [op.rec] else []
  }

  lemma ConcatAssociative<T>(x: seq<T>, y: seq<T>, z: seq<T>)
    ensures x + (y + z) == (x + y) + z
  {
  }

  lemma DropAppend<T>(x: seq<T>, y: seq<T>, k: nat)
    requires k <= |x|
    ensures (x + y)[k..] == x[k..] + y
    ensures x + [] == x && x[0..] == x
  {
  }

  lemma SuffixOfSuffix<T>(x: seq<T>, y: seq<T>, k: nat, j: nat)
    requires k <= |x| && k + j <= |x| + |y|
    ensures (x[k..] + y)[j..] == (x + y)[k + j..]
  {
  }

  lemma ApplyRefines(crc: Checksum, s: Ring, queue: seq<Record>, op: Op)
    returns (s': Ring, queue': seq<Record>, k: nat)
    requires Keeps(crc, s, queue) && HasMagicRoom(s) && Bounded(s)
    requires Stores(op) ==> LeavesRoom(s, Size(op.rec))
    requires s.meta.seqNo + |queue| + 1 < WORD
    ensures k <= |queue + PutOf(op)| && queue' == (queue + PutOf(op))[k..]
    ensures s' == Apply(crc, s, op) && Keeps(crc, s', queue') && HasMagicRoom(s') && Bounded(s')
    ensures s'.meta.seqNo + |queue'| <= s.meta.seqNo + |queue| + 2
  {
    s', queue', k := s, queue, 0;
    KeepsReads(crc, s, queue);
    RebootExact(crc, s, queue);
    DropAppend(queue, PutOf(op), 0);
    if Stores(op) {
      s', k := ApplyPut(crc, s, queue, op.rec);
      queue' := queue[k..] + PutOf(op);
      DropAppend(queue, PutOf(op), k);
    } else if op.ConsumeOp? && queue != [] {
      ConsumeRefines(crc, s, queue);
      ConsumedSeq(crc, s);
      s', queue', k := Consumed(crc, s), queue[1..], 1;
    }
  }

  lemma ApplyPut(crc: Checksum, s: Ring, queue: seq<Record>, rec: Record) returns (s': Ring, k: nat)
    requires Keeps(crc, s, queue) && HasMagicRoom(s) && Bounded(s) && Stores(PutOp(rec)) && LeavesRoom(s, Size(rec))
    requires s.meta.seqNo + |queue| + 1 < WORD
    ensures k <= |queue| && s' == Put(crc, s, rec) && Keeps(crc, s', queue[k..] + [rec])
    ensures HasMagicRoom(s') && Bounded(s') && s'.meta.seqNo == s.meta.seqNo + k + 1
  {
    k := PutRefines(crc, s, queue, rec);
    s' := Put(crc, s, rec);
    PutHead(crc, s, rec);
    MagicRoomLeft(s.meta.head, Size(rec));
  }

  lemma MagicRoomLeft(h: nat, req: nat)
    requires Target(h, req) % SECTOR + req <= SECTOR - 4
    ensures Wrap(Target(h, req) + req) % SECTOR <= SECTOR - 4
  {
    var t := Target(h, req);
    assert t + req == t / SECTOR * SECTOR + (t % SECTOR + req);
  }

  lemma ConsumedSeq(crc: Checksum, s: Ring)
    requires Bounded(s) && s.meta.count > 0
    ensures Consumed(crc, s).meta.seqNo <= s.meta.seqNo + 1
  {
  }

  // ---------------------------------------------------------------- a layout edge

  /** A magic word of which one byte is blank and another is not is neither padding nor the magic. */
  lemma MixedMagicUnreadable(mem: seq<byte>, t: nat, j: nat)
    requires |mem| == DEVICE && t + 4 <= DEVICE && mem[t] == 0xFF && j < 4 && mem[t + j] != 0xFF
    ensures ReadHeader(mem, t) == None
  {
    var n := NumberAt(mem, t, 4);
    assert n % 0x100 == mem[t] == 0xFF;
    if U32At(mem, t) == BLANK_WORD {
      BlankDigits(mem, t);
      assert false;
    }
  }

  lemma BlankDigits(mem: seq<byte>, a: nat)
    requires a + 4 <= |mem| && U32At(mem, a) == BLANK_WORD
    ensures mem[a] == mem[a + 1] == mem[a + 2] == mem[a + 3] == 0xFF
  {
    assert NumberAt(mem, a + 1, 3) == 0xFF_FFFF;
    assert NumberAt(mem, a + 2, 2) == 0xFFFF;
    assert NumberAt(mem, a + 3, 1) == 0xFF;
  }

  // ---------------------------------------------------------------- starting empty

  /** metadata_reset: both journal sectors and the first data sector erased, then the first entry. */
  function Reset(crc: Checksum, mem: seq<byte>): (r: Ring)
    requires |mem| == DEVICE
    ensures Bounded(r) && r.meta == Entry(1, DATA_START, DATA_START, 0, 0) && Fives(r.meta.head)
  {
    var blank := Erased(Erased(Erased(mem, 0, SECTOR), SECTOR, SECTOR), DATA_START, SECTOR);
    var e := Entry(1, DATA_START, DATA_START, 0, 0);
    Journaled(crc, Ring(blank, e, 0, 0), e)
  }

  lemma ResetIsEmpty(crc: Checksum, mem: seq<byte>)
    requires |mem| == DEVICE
    ensures Keeps(crc, Reset(crc, mem), []) && HasMagicRoom(Reset(crc, mem))
  {
    var blank := Erased(Erased(Erased(mem, 0, SECTOR), SECTOR, SECTOR), DATA_START, SECTOR);
    var e, r := Entry(1, DATA_START, DATA_START, 0, 0), Reset(crc, mem);
    BlankJournal(crc, blank);
    var a := Append(crc, blank, 0, 0, e);
    AppendHolds(crc, blank, 0, 0, e, a);
    assert r == Ring(a.mem, e, a.sector, a.index);
    EmptyRing(crc, a.mem);
    Closed(crc, r, [], Pos(0, 0), Pos(0, 0));
    assert RecordsOf([]) == [];
  }

  lemma BlankJournal(crc: Checksum, mem: seq<byte>)
    requires |mem| == DEVICE && BlankRange(mem, 0, SECTOR) && BlankRange(mem, SECTOR, SECTOR)
    ensures Ready(JournalOf(crc, mem), 0, 0, 1)
  {
    BlankSector(crc, mem, 0);
    BlankSector(crc, mem, 1);
  }

  lemma EmptyRing(crc: Checksum, mem: seq<byte>)
    requires |mem| == DEVICE && BlankRange(mem, DATA_START, SECTOR)
    ensures Live(crc, mem, [], Pos(0, 0), Pos(0, 0)) && Fresh(mem, Pos(0, 0))
  {
  }
}

/** The Em_EEPROM persistent tier (flash_buffer.c): a metadata row and a ring of one-record rows. */
module FlashBuffer {
  import opened Words
  import opened Records
  import opened Cyclic

  const DATA_ROWS: nat := 61
  const ROWS: nat := 62                           // the two rows after these belong to persistent_seq
  const RECORD_MAGIC: u32 := 0xB1F0_DA7A
  const META_MAGIC: u32 := 0x4D45_5441
  const META_VERSION: u16 := 2
  const ROW_PAYLOAD: u16 := 492

  // ---------------------------------------------------------------- rows

  function RowBody(r: Record): (b: seq<byte>)
    ensures |b| == 508
  {
    Header(RECORD_MAGIC, r) + r.payload + seq(492 - PayloadLen(r.kind), _ => 0xFF)
  }

  function EncodeRow(crc: Checksum, r: Record): Row {
    RowBody(r) + Le32(crc(RowBody(r)))
  }

  /** record_is_valid, and the record a valid row holds. */
  function RowRecord(crc: Checksum, row: Row): Option<Record> {
    var kind, len := row[6], U16At(row, 4);
    if U32At(row, 0) != RECORD_MAGIC then None
    else if kind > EVENT then None
    else if len > ROW_PAYLOAD then None
    else if len != PayloadLen(kind) then None
    else if U32At(row, 508) != crc(row[..508]) then None
    else Some(Record(kind, U32At(row, 8), U32At(row, 12), row[16..16 + len]))
  }

  lemma RowRoundTrip(crc: Checksum, r: Record)
    requires r.kind <= EVENT
    ensures RowRecord(crc, EncodeRow(crc, r)) == Some(r)
  {
    var row, body := EncodeRow(crc, r), RowBody(r);
    assert row[..508] == body;
    assert row[0..HEADER] == Header(RECORD_MAGIC, r);
    HeaderRoundTrip(row, 0, RECORD_MAGIC, r);
    assert row[16..16 + PayloadLen(r.kind)] == r.payload;
    assert row[508..508 + 4] == Le32(crc(body));
    Le32RoundTrip(row, 508, crc(body));
  }

  /** What the code keeps in s_meta. */
  datatype Meta = Meta(head: u16, tail: u16, count: u16, totalWrites: u32)

  function MetaBody(m: Meta): (b: seq<byte>)
    ensures |b| == 16
  {
    Le32(META_MAGIC) + Le16(m.head) + Le16(m.tail) + Le16(m.count) + Le16(META_VERSION) + Le32(m.totalWrites)
  }

  function EncodeMeta(crc: Checksum, m: Meta): Row {
    MetaBody(m) + Le32(crc(MetaBody(m))) + seq(492, _ => 0xFF)
  }

  /** meta_read_and_validate */
  function MetaOf(crc: Checksum, row: Row): Option<Meta> {
    var m := Meta(U16At(row, 4), U16At(row, 6), U16At(row, 8), U32At(row, 12));
    if U32At(row, 0) != META_MAGIC then None
    else if U16At(row, 10) != META_VERSION then None
    else if U32At(row, 16) != crc(row[..16]) then None
    else if m.head >= DATA_ROWS || m.tail >= DATA_ROWS || m.count > DATA_ROWS then None
    else Some(m)
  }

  lemma MetaRoundTrip(crc: Checksum, m: Meta)
    requires m.head < DATA_ROWS && m.tail < DATA_ROWS && m.count <= DATA_ROWS
    ensures MetaOf(crc, EncodeMeta(crc, m)) == Some(m)
  {
    var row, body := EncodeMeta(crc, m), MetaBody(m);
    assert row[..16] == body;
    assert row[0..4] == Le32(META_MAGIC) && row[4..6] == Le16(m.head) && row[6..8] == Le16(m.tail);
    assert row[8..10] == Le16(m.count) && row[10..12] == Le16(META_VERSION);
    assert row[12..16] == Le32(m.totalWrites) && row[16..20] == Le32(crc(body));
    Le32RoundTrip(row, 0, META_MAGIC);
    Le16RoundTrip(row, 4, m.head);
    Le16RoundTrip(row, 6, m.tail);
    Le16RoundTrip(row, 8, m.count);
    Le16RoundTrip(row, 10, META_VERSION);
    Le32RoundTrip(row, 12, m.totalWrites);
    Le32RoundTrip(row, 16, crc(body));
  }

  // ---------------------------------------------------------------- the ring

  type Slot = Option<Record>

  function SlotsOf(crc: Checksum, rows: seq<Row>): (slots: seq<Slot>)
    requires |rows| == ROWS
    ensures |slots| == DATA_ROWS
  {
    seq(DATA_ROWS, i requires 0 <= i < DATA_ROWS => RowRecord(crc, rows[1 + i]))
  }

  lemma SlotWritten(crc: Checksum, rows: seq<Row>, i: nat, row: Row)
    requires |rows| == ROWS && i < DATA_ROWS
    ensures SlotsOf(crc, rows[1 + i := row]) == SlotsOf(crc, rows)[i := RowRecord(crc, row)]
    ensures SlotsOf(crc, rows[0 := row]) == SlotsOf(crc, rows)
  {
  }

  predicate Coherent(m: Meta, cap: nat) {
    0 < cap && m.tail < cap && m.count <= cap && m.head == At(m.tail, m.count, cap)
  }

  /** The records held, oldest first; None stands for a row that does not validate. */
  function QueueOf(slots: seq<Slot>, m: Meta, cap: nat): (q: seq<Slot>)
    requires cap <= |slots| && Coherent(m, cap)
    ensures |q| == m.count
  {
    Window(slots[..cap], m.tail, m.count)
  }

  function Advanced(m: Meta, cap: nat): (r: Meta)
    requires Coherent(m, cap) && cap <= DATA_ROWS && m.count > 0
    ensures Coherent(r, cap) && r.count == m.count - 1
  {
    m.(tail := Succ(m.tail, cap), count := m.count - 1)
  }

  function Appended(m: Meta, cap: nat): (r: Meta)
    requires Coherent(m, cap) && cap <= DATA_ROWS && m.count < cap
    ensures Coherent(r, cap) && r.count == m.count + 1
  {
    m.(head := Succ(m.head, cap), count := m.count + 1, totalWrites := Inc32(m.totalWrites))
  }

  lemma AdvancedDrops(slots: seq<Slot>, m: Meta, cap: nat)
    requires cap <= |slots| == DATA_ROWS && Coherent(m, cap) && m.count > 0
    ensures QueueOf(slots, Advanced(m, cap), cap) == QueueOf(slots, m, cap)[1..]
  {
    Pop(slots[..cap], m.tail, m.count);
  }

  lemma AppendedAdds(slots: seq<Slot>, m: Meta, cap: nat, x: Slot)
    requires cap <= |slots| == DATA_ROWS && Coherent(m, cap) && m.count < cap
    ensures QueueOf(slots[m.head := x], Appended(m, cap), cap) == QueueOf(slots, m, cap) + [x]
    ensures QueueOf(slots[m.head := x], m, cap) == QueueOf(slots, m, cap)
  {
    assert slots[m.head := x][..cap] == slots[..cap][m.head := x];
    Push(slots[..cap], m.tail, m.count, m.head, x);
    Outside(slots[..cap], m.tail, m.count, m.head, x);
  }

  /** A power loss between the data row of a put and its metadata: a reboot finds the old queue, except that
      a ring that was full has the new row, whole or torn, in place of its oldest. */
  lemma InterruptedPut(slots: seq<Slot>, m: Meta, cap: nat, x: Slot)
    requires cap <= |slots| && Coherent(m, cap)
    ensures var q := QueueOf(slots, m, cap);
            QueueOf(slots[m.head := x], m, cap) == if m.count < cap then q else q[0 := x]
  {
    var q, r := QueueOf(slots, m, cap), QueueOf(slots[m.head := x], m, cap);
    forall i | 0 <= i < m.count ensures r[i] == if m.count == cap && i == 0 then x else q[i] {
      assert At(m.tail, i, cap) == m.head <==> m.count == cap && i == 0;
    }
    if m.count < cap {
      assert r == q;
    } else {
      assert r == q[0 := x];
    }
  }

  lemma OldestSlot(slots: seq<Slot>, m: Meta, cap: nat)
    requires cap <= |slots| && Coherent(m, cap) && m.count > 0
    ensures QueueOf(slots, m, cap)[0] == slots[m.tail]
  {
  }

  class FlashBuffer {
    const crc: Checksum
    const maxRecords: nat       // flash_max_records
    const dropOldest: bool      // drop_oldest
    const flash: array<Row>
    const reliable: bool        // row writes never fail
    var meta: Meta              // s_meta
    var initialised: bool
    var enqueued: nat
    var dequeued: nat
    var dropped: nat
    /** The metadata row is not what the RAM shadow says. */
    ghost var stale: bool
    /** A flash operation has failed. */
    ghost var faulted: bool

    function Capacity(): (cap: nat)
      ensures cap <= DATA_ROWS && (cap > 0 <==> maxRecords > 0)
    {
      if maxRecords < DATA_ROWS then maxRecords else DATA_ROWS
    }

    /** The records held, oldest first; None stands for a row that does not validate. */
    ghost var queue: seq<Slot>

    ghost predicate Detail()
      reads this, flash
    {
      && flash.Length == ROWS
      && (initialised ==> Coherent(meta, Capacity()) && queue == QueueOf(SlotsOf(crc, flash[..]), meta, Capacity()))
      && (initialised && !stale ==> MetaOf(crc, flash[0]) == Some(meta))
    }

    /** Callers see the queue; the rows are looked at only through Open and Close. */
    ghost predicate Sealed(n: nat)
      reads this, flash
      decreases n, this
    {
      if n > 0 then Sealed(n - 1) else Detail()
    }

    ghost predicate Valid()
      reads this, flash
    {
      && Sealed(3) && flash.Length == ROWS
      && (if initialised then |queue| == meta.count <= Capacity() && 0 < Capacity() else queue == [])
    }

    lemma Open()
      requires Valid()
      ensures Detail()
    {
      assert Sealed(2);
      assert Sealed(1);
      assert Sealed(0);
    }

    lemma Close()
      requires Detail() && (!initialised ==> queue == [])
      ensures Valid()
    {
      assert Sealed(0);
      assert Sealed(1);
      assert Sealed(2);
    }

    /** Unless a metadata write failed or is outstanding, the metadata row describes exactly the queue. */
    lemma Described()
      requires Valid() && initialised && !stale
      ensures MetaOf(crc, flash[0]) == Some(meta) && Coherent(meta, Capacity())
      ensures queue == QueueOf(SlotsOf(crc, flash[..]), meta, Capacity())
    {
      Open();
    }

    ghost function Balance(): int
      reads this
    {
      |queue| + dequeued + dropped - enqueued
    }

    constructor (crc: Checksum, maxRecords: nat, dropOldest: bool, reliable: bool, rows: array<Row>)
      requires rows.Length == ROWS
      ensures Valid() && !initialised && flash == rows
      ensures this.crc == crc && this.maxRecords == maxRecords && this.dropOldest == dropOldest
      ensures this.reliable == reliable
    {
      this.crc, this.maxRecords, this.dropOldest, this.reliable, flash := crc, maxRecords, dropOldest, reliable, rows;
      meta := Meta(0, 0, 0, 0);
      initialised := false;
      enqueued, dequeued, dropped := 0, 0, 0;
      stale, faulted, queue := true, false, [];
      new;
      Close();
    }

    /** Cy_Flash_WriteRow */
    method WriteRow(i: nat, row: Row) returns (ok: bool)
      requires i < flash.Length
      modifies flash, `faulted
      ensures flash[..] == old(flash[..])[i := flash[i]] && (ok ==> flash[i] == row)
      ensures faulted == (old(faulted) || !ok) && (reliable ==> ok)
    {
      ok := *;
      if ok || reliable {
        ok := true;
        flash[i] := row;
      } else {
        var left: Row := *;
        flash[i] := left;
        faulted := true;
      }
    }

    method MetaWrite() returns (ok: bool)
      requires flash.Length == ROWS && meta.head < DATA_ROWS && meta.tail < DATA_ROWS && meta.count <= DATA_ROWS
      modifies `stale, `faulted, flash
      ensures faulted == (old(faulted) || !ok) && (reliable ==> ok)
      ensures stale == !ok && (ok ==> MetaOf(crc, flash[0]) == Some(meta))
      ensures SlotsOf(crc, flash[..]) == SlotsOf(crc, old(flash[..]))
    {
      ok := WriteRow(0, EncodeMeta(crc, meta));
      stale := !ok;
      MetaRoundTrip(crc, meta);
      SlotWritten(crc, old(flash[..]), 0, flash[0]);
    }

    /** Metadata found in flash, clamped to the configured capacity; metadata that was left by this
        capacity brings the queue back. */
    method Adopt(m: Meta)
      requires Valid() && !initialised && maxRecords > 0 && MetaOf(crc, flash[0]) == Some(m)
      modifies `meta, `initialised, `stale, `faulted, `queue, flash
      ensures initialised && meta.head < Capacity() && meta.tail < Capacity() && meta.count <= Capacity()
      ensures Coherent(m, Capacity()) ==>
                && Valid() && !stale && faulted == old(faulted) && meta == m && flash[..] == old(flash[..])
                && queue == QueueOf(SlotsOf(crc, old(flash[..])), m, Capacity())
    {
      meta := m;
      stale := false;
      var cap := Capacity();
      var clamped := false;
      if meta.head >= cap {
        meta, clamped := meta.(head := 0), true;
      }
      if meta.tail >= cap {
        meta, clamped := meta.(tail := 0), true;
      }
      if meta.count > cap {
        meta, clamped := meta.(count := cap), true;
      }
      if clamped {
        var _ := MetaWrite();
      }
      initialised := true;
      if Coherent(m, cap) {
        queue := QueueOf(SlotsOf(crc, flash[..]), meta, cap);
        Close();
      }
    }

    /** flash_buffer_init */
    method Init() returns (ok: bool)
      requires Valid() && !initialised
      modifies `meta, `initialised, `stale, `faulted, `queue, flash
      ensures maxRecords == 0 ==> ok && !initialised && flash[..] == old(flash[..]) && Valid()
      ensures maxRecords > 0 ==> ok == initialised
      ensures initialised ==> meta.head < Capacity() && meta.tail < Capacity() && meta.count <= Capacity()
      ensures maxRecords > 0 ==>
                match MetaOf(crc, old(flash[0]))
                case None => Valid() && queue == [] && (old(faulted) ==> faulted) && (!faulted ==> ok && !stale)
                case Some(m) => ok && (Coherent(m, Capacity()) ==>
                    && Valid() && !stale && faulted == old(faulted) && meta == m
                    && queue == QueueOf(SlotsOf(crc, old(flash[..])), m, Capacity()))
    {
      Open();
      if maxRecords == 0 {
        return true;
      }
      var found := MetaOf(crc, flash[0]);
      if found.Some? {
        Adopt(found.value);
        return true;
      }
      meta := Meta(0, 0, 0, 0);
      ok := MetaWrite();
      initialised := ok;
      Close();
    }

    /** flash_buffer_put_record */
    method PutRecord(rec: Record) returns (ok: bool)
      requires Valid()
      modifies this, flash
      ensures Valid() && initialised == old(initialised)
      ensures !old(initialised) ==> !ok && queue == old(queue)
      ensures old(initialised) ==>
                var q, full := old(queue), |old(queue)| >= Capacity();
                && (full && !dropOldest ==> !ok)
                && (PayloadLen(rec.kind) == 0 ==> !ok)
                && (PayloadLen(rec.kind) != 0 && !(full && !dropOldest) && (!faulted || reliable) ==> ok && !stale)
                && queue == (if full && dropOldest then q[1..] else q) + (if ok then [Some(rec)] else [])
      ensures Balance() == old(Balance())
                           + if !ok && old(initialised) && |old(queue)| >= Capacity() && !dropOldest then 1 else 0
      ensures dequeued == old(dequeued) && (old(faulted) ==> faulted)
      ensures reliable ==> faulted == old(faulted)
    {
      if !initialised {
        return false;
      }
      Open();
      var cap := Capacity();
      if meta.count >= cap {
        if !dropOldest {
          dropped := dropped + 1;
          Close();
          return false;
        }
        AdvancedDrops(SlotsOf(crc, flash[..]), meta, cap);
        meta := Advanced(meta, cap);
        queue := queue[1..];
        stale := true;
        dropped := dropped + 1;
        Close();
      }
      if PayloadLen(rec.kind) == 0 {
        return false;
      }
      ok := StoreRecord(rec);
    }

    /** A data row written, or left with anything in it. */
    method WriteSlot(slot: nat, rec: Record) returns (ok: bool)
      requires flash.Length == ROWS && slot < DATA_ROWS && rec.kind <= EVENT
      modifies `faulted, flash
      ensures flash[0] == old(flash[0]) && faulted == (old(faulted) || !ok) && (reliable ==> ok)
      ensures SlotsOf(crc, flash[..]) == SlotsOf(crc, old(flash[..]))[slot := RowRecord(crc, flash[1 + slot])]
      ensures ok ==> RowRecord(crc, flash[1 + slot]) == Some(rec)
    {
      ok := WriteRow(1 + slot, EncodeRow(crc, rec));
      SlotWritten(crc, old(flash[..]), slot, flash[1 + slot]);
      RowRoundTrip(crc, rec);
    }

    /** The rest of flash_buffer_put_record, once there is room. */
    method StoreRecord(rec: Record) returns (ok: bool)
      requires Valid() && initialised && meta.count < Capacity() && rec.kind <= EVENT
      modifies `meta, `stale, `faulted, `enqueued, `queue, flash
      ensures Valid() && queue == old(queue) + (if ok then [Some(rec)] else [])
      ensures (old(faulted) ==> faulted) && (!faulted || reliable ==> ok && !stale)
      ensures enqueued == old(enqueued) + if ok then 1 else 0
      ensures reliable ==> faulted == old(faulted)
    {
      Open();
      ghost var slots := SlotsOf(crc, flash[..]);
      ok := WriteSlot(meta.head, rec);
      AppendedAdds(slots, meta, Capacity(), RowRecord(crc, flash[1 + meta.head]));
      if !ok {
        Close();
        return;
      }
      Commit(rec);
    }

    /** The metadata moved past a record whose row has been written. */
    method Commit(rec: Record)
      requires flash.Length == ROWS && initialised && Coherent(meta, Capacity()) && meta.count < Capacity()
      requires QueueOf(SlotsOf(crc, flash[..]), Appended(meta, Capacity()), Capacity()) == queue + [Some(rec)]
      modifies `meta, `stale, `faulted, `enqueued, `queue, flash
      ensures Valid() && queue == old(queue) + [Some(rec)] && enqueued == old(enqueued) + 1
      ensures (old(faulted) ==> faulted) && (!faulted || reliable ==> !stale)
      ensures reliable ==> faulted == old(faulted)
    {
      meta := Appended(meta, Capacity());
      queue := queue + [Some(rec)];
      var _ := MetaWrite();
      enqueued := enqueued + 1;
      Close();
    }

    /** flash_buffer_peek: a row that does not validate is discarded. */
    method Peek() returns (out: Option<Record>)
      requires Valid()
      modifies this, flash
      ensures Valid() && initialised == old(initialised) && Balance() == old(Balance())
      ensures enqueued == old(enqueued) && dequeued == old(dequeued)
      ensures if old(queue) == [] then out == None && queue == []
              else out == old(queue)[0] && queue == if out == None then old(queue)[1..] else old(queue)
      ensures (old(faulted) ==> faulted) && (!faulted && !old(stale) ==> !stale)
      ensures reliable ==> faulted == old(faulted)
    {
      if !initialised || meta.count == 0 {
        return None;
      }
      Open();
      OldestSlot(SlotsOf(crc, flash[..]), meta, Capacity());
      out := RowRecord(crc, flash[1 + meta.tail]);
      if out == None {
        AdvancedDrops(SlotsOf(crc, flash[..]), meta, Capacity());
        meta := Advanced(meta, Capacity());
        queue := queue[1..];
        var _ := MetaWrite();
        dropped := dropped + 1;
        Close();
      }
    }

    /** flash_buffer_consume */
    method Consume() returns (ok: bool)
      requires Valid()
      modifies this, flash
      ensures Valid() && initialised == old(initialised) && Balance() == old(Balance())
      ensures ok == (old(queue) != [])
      ensures queue == if ok then old(queue)[1..] else old(queue)
      ensures enqueued == old(enqueued) && dropped == old(dropped) && dequeued == old(dequeued) + if ok then 1 else 0
      ensures (old(faulted) ==> faulted) && (!faulted && !old(stale) ==> !stale)
      ensures reliable ==> faulted == old(faulted)
    {
      if !initialised || meta.count == 0 {
        return false;
      }
      Open();
      AdvancedDrops(SlotsOf(crc, flash[..]), meta, Capacity());
      meta := Advanced(meta, Capacity());
      queue := queue[1..];
      var _ := MetaWrite();
      dequeued := dequeued + 1;
      Close();
      return true;
    }

    /** flash_buffer_depth */
    method Depth() returns (n: nat)
      requires Valid()
      ensures n == |queue|
    {
      n := if initialised then meta.count else 0;
    }
  }

  /** A power cycle: a new instance on the same rows, with the same settings.  Unless a metadata write had
      failed, init brings the whole queue back. */
  method PowerCycle(f: FlashBuffer) returns (g: FlashBuffer)
    requires f.Valid() && f.initialised && !f.stale
    modifies f.flash
    ensures fresh(g) && g.flash == f.flash && g.crc == f.crc && g.maxRecords == f.maxRecords
    ensures g.Valid() && g.initialised && !g.stale && g.queue == old(f.queue) && g.meta == f.meta
  {
    f.Described();
    g := new FlashBuffer(f.crc, f.maxRecords, f.dropOldest, f.reliable, f.flash);
    var ok := g.Init();
  }
}

/** A sector filled exactly: the next put goes into the sector behind without erasing it, and what becomes
    of the queue then. */
module QspiFill {
  import opened Words
  import opened Records
  import opened QspiLayout
  import opened QspiJournal
  import opened QspiBuffer
  import opened QspiEdges

  /** The head has come round to the tail itself, and the room check takes it for an empty lap. */
  predicate Over(s: Ring) {
    s.meta.count > 0 && s.meta.head == s.meta.tail
  }

  // ---------------------------------------------------------------- the drop loop, over any live records

  lemma OverMeans(crc: Checksum, s: Ring, items: seq<Item>, tail: Pos, head: Pos)
    requires Holding(crc, s.mem, s.active, s.index, s.meta, items, tail, head)
    ensures tail.off < SECTOR && head.off < SECTOR
    ensures Over(s) <==> items != [] && head.sec == tail.sec + DATA_SECTORS && head.off == tail.off
  {
    HoldingBounded(crc, s, items, tail, head);
    ChainRoom(crc, s.mem, items, tail, head);
    SameSector(tail, head);
    PlaceFacts(tail);
    PlaceFacts(head);
  }

  /** In its own sector a put has room exactly when it stays clear of the live records, or the head is at the
      tail. */
  lemma RoomLeft(crc: Checksum, s: Ring, items: seq<Item>, tail: Pos, head: Pos, z: nat)
    requires Holding(crc, s.mem, s.active, s.index, s.meta, items, tail, head) && 0 < z && head.off + z <= SECTOR
    ensures Room(s, z) && !Over(s) ==> Clear(tail, head, head, z)
    ensures !Room(s, z) ==> items != [] && head.sec == tail.sec + DATA_SECTORS && head.off < tail.off
  {
    HoldingBounded(crc, s, items, tail, head);
    OverMeans(crc, s, items, tail, head);
    SameSector(tail, head);
    PlaceFacts(tail);
    PlaceFacts(head);
  }

  lemma EndsLater(crc: Checksum, mem: seq<byte>, items: seq<Item>, tail: Pos, head: Pos)
    requires Chain(crc, mem, items, tail, head) && items != []
    ensures End(items[0]).sec > tail.sec || (End(items[0]).sec == tail.sec && End(items[0]).off > tail.off)
  {
  }

  /** The drop loop keeps what it leaves, and neither makes nor ends the case of a head at the tail. */
  lemma {:induction false} RoomHolds(crc: Checksum, s: Ring, items: seq<Item>, tail: Pos, head: Pos, z: nat)
    returns (k: nat, t: Pos)
    requires Holding(crc, s.mem, s.active, s.index, s.meta, items, tail, head) && 0 < z && head.off + z <= SECTOR
    requires s.meta.seqNo + |items| < WORD
    ensures Bounded(s) && k <= |items| && (k > 0 ==> !Room(s, z))
    ensures var r := MakeRoom(crc, s, z);
            && Holding(crc, r.mem, r.active, r.index, r.meta, items[k..], t, head)
            && r.meta.seqNo == s.meta.seqNo + k && (Over(r) <==> Over(s))
    decreases |items|
  {
    HoldingBounded(crc, s, items, tail, head);
    RoomLeft(crc, s, items, tail, head, z);
    OverMeans(crc, s, items, tail, head);
    if Room(s, z) {
      k, t := 0, tail;
      assert items[0..] == items;
    } else {
      ConsumeHolds(crc, s, items, tail, head);
      EndsLater(crc, s.mem, items, tail, head);
      OverMeans(crc, Consumed(crc, s), items[1..], End(items[0]), head);
      var k';
      k', t := RoomHolds(crc, Consumed(crc, s), items[1..], End(items[0]), head, z);
      k := k' + 1;
      assert items[1..][k'..] == items[k..];
    }
  }

  // ---------------------------------------------------------------- what is read back

  /** Programming `data` at `a` leaves it there: no bit it needs has been cleared. */
  predicate Takes(mem: seq<byte>, a: nat, data: seq<byte>) {
    a + |data| <= |mem| && Clears(mem[a..a + |data|], data)
  }

  /** What programming `data` over `was` leaves. */
  function Blend(was: seq<byte>, data: seq<byte>): (b: seq<byte>)
    requires |was| == |data|
    ensures |b| == |data|
  {
    seq(|data|, i requires 0 <= i < |data| => ProgrammedByte(was[i], data[i]))
  }

  /** `m` has at `a` what programming `data` over `mem` leaves there. */
  ghost predicate Overwritten(m: seq<byte>, mem: seq<byte>, a: nat, data: seq<byte>) {
    && |m| == |mem| && a + |data| <= |mem|
    && m[a..a + |data|] == Blend(mem[a..a + |data|], data)
  }

  /** And nothing else changed. */
  ghost predicate OnlyOverwritten(m: seq<byte>, mem: seq<byte>, a: nat, data: seq<byte>) {
    SameOutside(m, mem, a, |data|) && Overwritten(m, mem, a, data)
  }

  lemma ProgramOverwrites(mem: seq<byte>, a: nat, data: seq<byte>)
    requires a + |data| <= |mem|
    ensures OnlyOverwritten(Programmed(mem, a, data), mem, a, data)
  {
    var m, blend := Programmed(mem, a, data), Blend(mem[a..a + |data|], data);
    forall i | 0 <= i < |data| ensures m[a + i] == blend[i] {
      assert m[a + i] == BitAnd(mem[a + i], data[a + i - a]);
    }
    SliceIs(m, a, blend);
  }

  lemma DataOverwritten(m: seq<byte>, w: seq<byte>, mem: seq<byte>, a: nat, data: seq<byte>)
    requires SameData(m, w) && Overwritten(w, mem, a, data) && DATA_START <= a
    ensures Overwritten(m, mem, a, data)
  {
    SameSlice(m, w, a, |data|);
  }

  lemma TakesExactly(m: seq<byte>, mem: seq<byte>, a: nat, data: seq<byte>)
    requires Overwritten(m, mem, a, data)
    ensures m[a..a + |data|] == data <==> Takes(mem, a, data)
  {
    BlendClears(mem[a..a + |data|], data);
  }

  lemma BlendClears(was: seq<byte>, data: seq<byte>)
    requires |was| == |data|
    ensures Blend(was, data) == data <==> Clears(was, data)
  {
    var b := Blend(was, data);
    assert forall i :: 0 <= i < |data| ==> b[i] == BitAnd(was[i], data[i]);
  }

  lemma ByteOver(m: seq<byte>, mem: seq<byte>, h: nat, data: seq<byte>, i: nat)
    requires Overwritten(m, mem, h, data) && i < |data|
    ensures m[h + i] == BitAnd(mem[h + i], data[i]) <= data[i]
  {
    assert m[h + i] == m[h..h + |data|][i] == Blend(mem[h..h + |data|], data)[i];
    AndBelow(mem[h + i], data[i]);
  }

  /** A record programmed over anything is looked up there exactly when no bit it needs had been cleared. */
  lemma ProgrammedReads(crc: Checksum, mem: seq<byte>, m: seq<byte>, h: nat, next: Record)
    requires |m| == DEVICE && Overwritten(m, mem, h, Encode(crc, next)) && next.kind <= EVENT
    requires DATA_START <= h < REGION && h % SECTOR + Size(next) <= SECTOR
    ensures var r := ReadRecord(crc, m, h);
            && (r.Some? && r.value.rec == next <==> Takes(mem, h, Encode(crc, next)))
            && (r.Some? ==> r.value.start == h)
  {
    ProgrammedEnds(crc, mem, m, h, next);
    StartsHere(crc, m, h);
    ReadBackExactly(crc, m, h, next);
    TakesExactly(m, mem, h, Encode(crc, next));
  }

  lemma ProgrammedEnds(crc: Checksum, mem: seq<byte>, m: seq<byte>, h: nat, next: Record)
    requires Overwritten(m, mem, h, Encode(crc, next)) && next.kind <= EVENT
    ensures m[h] != 0xFF && m[h + 7] == 0
  {
    var data := EndBytes(crc, next);
    ByteOver(m, mem, h, data, 0);
    ByteOver(m, mem, h, data, 7);
  }

  lemma EndBytes(crc: Checksum, next: Record) returns (data: seq<byte>)
    requires next.kind <= EVENT
    ensures data == Encode(crc, next) && |data| > 7 && data[0] < 0xFF && data[7] == 0
  {
    data := Encode(crc, next);
    FirstByte(crc, next);
    KindBytes(crc, next);
  }

  lemma StartsHere(crc: Checksum, m: seq<byte>, h: nat)
    requires |m| == DEVICE && h + 4 <= DEVICE && m[h] != 0xFF
    ensures ReadRecord(crc, m, h).Some? ==> ReadRecord(crc, m, h).value.start == h
  {
    if U32At(m, h) == BLANK_WORD {
      BlankDigits(m, h);
    }
  }

  /** The metadata written after a put into the head's sector, and what a reboot then reads. */
  lemma Committed(crc: Checksum, w: Ring, z: nat) returns (u: Ring)
    requires Bounded(w) && Holds(JournalOf(crc, w.mem), w.active, w.index, w.meta) && 0 < z < SECTOR
    requires w.meta.seqNo + 1 < WORD && w.meta.count < MAX_POSSIBLE_RECORDS
    ensures u == Journaled(crc, w, PutEntry(w, z)) && SameData(u.mem, w.mem)
    ensures u.meta.tail == w.meta.tail && u.meta.count == w.meta.count + 1 && u.meta.seqNo == w.meta.seqNo + 1
    ensures Holds(JournalOf(crc, u.mem), u.active, u.index, u.meta)
    ensures QueueIn(crc, u.mem) == ReadChain(crc, u.mem, w.meta.tail, w.meta.count + 1)
  {
    var e := PutEntry(w, z);
    var a := Append(crc, w.mem, w.active, w.index, e);
    u := Journaled(crc, w, e);
    AppendHolds(crc, w.mem, w.active, w.index, e, a);
    RecoverExact(crc, u.mem, u.active, u.index - 1, e);
  }

  /** The record is programmed at the head, which is in a sector with room for it. */
  lemma WrittenHere(crc: Checksum, s: Ring, next: Record) returns (w: Ring)
    requires Bounded(s) && s.meta.head % SECTOR + Size(next) <= SECTOR
    ensures w == Written(crc, Entered(s, Size(next)), next) && w == s.(mem := w.mem) && Bounded(w)
    ensures s.meta.head + Size(next) <= DEVICE && OnlyOverwritten(w.mem, s.mem, s.meta.head, Encode(crc, next))
    ensures PutRest(crc, s, next) == Journaled(crc, w, PutEntry(w, Size(next)))
  {
    w := Written(crc, Entered(s, Size(next)), next);
    ProgramOverwrites(s.mem, s.meta.head, Encode(crc, next));
  }

  // ---------------------------------------------------------------- behind the live records

  /** What a reader of `n + 1` records finds behind `n` live ones is what is at the head. */
  lemma OneBehind(crc: Checksum, mem: seq<byte>, items: seq<Item>, tail: Pos, head: Pos, next: Record)
    requires Live(crc, mem, items, tail, head)
    ensures ReadChain(crc, mem, Place(tail), |items|) == Some(RecordsOf(items))
    ensures ReadChain(crc, mem, Place(tail), |items| + 1) == Some(RecordsOf(items) + [next])
            <==> ReadRecord(crc, mem, Place(head)).Some? && ReadRecord(crc, mem, Place(head)).value.rec == next
  {
    var queue := RecordsOf(items);
    ChainReads(crc, mem, items, tail, head);
    ReadOneMore(crc, mem, Place(tail), |items|, queue);
    forall x: Record ensures queue + [x] == queue + [next] <==> x == next {
      SameLast(queue, x, next);
    }
  }

  lemma SameLast<T>(xs: seq<T>, x: T, y: T)
    ensures xs + [x] == xs + [y] <==> x == y
  {
    assert (xs + [x])[|xs|] == x && (xs + [y])[|xs|] == y;
  }

  /** Clear of the live records, the record is in the queue exactly when its bytes are all there. */
  lemma AppendedExactly(crc: Checksum, s: Ring, items: seq<Item>, tail: Pos, head: Pos, next: Record)
    returns (u: Ring)
    requires Holding(crc, s.mem, s.active, s.index, s.meta, items, tail, head) && Bounded(s) && next.kind <= EVENT
    requires Clear(tail, head, head, Size(next)) && s.meta.seqNo + 1 < WORD
    ensures u == PutRest(crc, s, next)
    ensures QueueIn(crc, u.mem) == Some(RecordsOf(items) + [next]) <==> Takes(s.mem, s.meta.head, Encode(crc, next))
    ensures Takes(s.mem, s.meta.head, Encode(crc, next)) ==> Reads(crc, u, RecordsOf(items) + [next])
    ensures ReadChain(crc, u.mem, u.meta.tail, |items|) == Some(RecordsOf(items))
  {
    HoldingBounded(crc, s, items, tail, head);
    PlaceFacts(head);
    var w := WrittenHere(crc, s, next);
    DataTear(crc, s.mem, s.active, s.index, s.meta, items, tail, head, head, Size(next), w.mem);
    u := CommittedBehind(crc, w, items, tail, head, next);
    DataOverwritten(u.mem, w.mem, s.mem, Place(head), Encode(crc, next));
    ProgrammedReads(crc, s.mem, u.mem, Place(head), next);
    if Takes(s.mem, s.meta.head, Encode(crc, next)) {
      KeptBehind(crc, s, w, items, tail, head, next);
    }
  }

  lemma CommittedBehind(crc: Checksum, w: Ring, items: seq<Item>, tail: Pos, head: Pos, next: Record)
    returns (u: Ring)
    requires Holding(crc, w.mem, w.active, w.index, w.meta, items, tail, head) && w.meta.seqNo + 1 < WORD
    ensures Bounded(w) && u == Journaled(crc, w, PutEntry(w, Size(next))) && SameData(u.mem, w.mem)
    ensures ReadChain(crc, u.mem, u.meta.tail, |items|) == Some(RecordsOf(items))
    ensures QueueIn(crc, u.mem) == Some(RecordsOf(items) + [next])
            <==> ReadRecord(crc, u.mem, Place(head)).Some? && ReadRecord(crc, u.mem, Place(head)).value.rec == next
  {
    HoldingBounded(crc, w, items, tail, head);
    CountBelow(crc, w.mem, items, tail, head);
    u := Committed(crc, w, Size(next));
    RingFrame(crc, w.mem, u.mem, items, tail, head);
    OneBehind(crc, u.mem, items, tail, head, next);
  }

  lemma CountBelow(crc: Checksum, mem: seq<byte>, items: seq<Item>, tail: Pos, head: Pos)
    requires Live(crc, mem, items, tail, head)
    ensures |items| < MAX_POSSIBLE_RECORDS
  {
    ChainRoom(crc, mem, items, tail, head);
    ChainGrows(crc, mem, items, tail, head);
  }

  lemma KeptBehind(crc: Checksum, s: Ring, w: Ring, items: seq<Item>, tail: Pos, head: Pos, next: Record)
    requires Live(crc, s.mem, items, tail, head) && next.kind <= EVENT && Clear(tail, head, head, Size(next))
    requires Holding(crc, w.mem, w.active, w.index, w.meta, items, tail, head) && w.meta.seqNo + 1 < WORD
    requires OnlyOverwritten(w.mem, s.mem, Place(head), Encode(crc, next))
    requires Takes(s.mem, Place(head), Encode(crc, next))
    ensures Bounded(w) && Reads(crc, Journaled(crc, w, PutEntry(w, Size(next))), RecordsOf(items) + [next])
  {
    HoldingBounded(crc, w, items, tail, head);
    PlaceFacts(head);
    TakesExactly(w.mem, s.mem, Place(head), Encode(crc, next));
    StoredAppends(crc, s.mem, w.mem, items, tail, head, Item(head, next));
    CommitKeeps(crc, w, items, tail, head, next, head);
  }

  // ---------------------------------------------------------------- over the oldest live record

  /** The record at `a` in the device is `x`. */
  ghost predicate StoredAt(crc: Checksum, mem: seq<byte>, a: nat, x: Record) {
    && |mem| == DEVICE && DATA_START <= a && a % SECTOR == 0 && a + SECTOR <= REGION
    && x.kind <= EVENT && mem[a..a + Size(x)] == Encode(crc, x)
  }

  lemma OverPlaces(crc: Checksum, s: Ring, items: seq<Item>, tail: Pos, head: Pos)
    requires Holding(crc, s.mem, s.active, s.index, s.meta, items, tail, head) && Over(s) && s.meta.head % SECTOR == 0
    ensures items != [] && tail.off == head.off == 0 && head.sec == tail.sec + 253
    ensures DATA_START <= Place(tail) == Place(head) == s.meta.head
  {
    OverMeans(crc, s, items, tail, head);
    HoldingBounded(crc, s, items, tail, head);
    PlaceFacts(head);
  }

  lemma OldestStored(crc: Checksum, mem: seq<byte>, items: seq<Item>, tail: Pos, head: Pos)
    requires |mem| == DEVICE && Chain(crc, mem, items, tail, head) && items != [] && tail.off == 0
    ensures StoredAt(crc, mem, Place(tail), items[0].rec)
  {
    PlaceFacts(tail);
  }

  /** At the start of its sector the tail is the place of the oldest record. */
  lemma OldestAtHead(crc: Checksum, s: Ring, items: seq<Item>, tail: Pos, head: Pos)
    requires Holding(crc, s.mem, s.active, s.index, s.meta, items, tail, head)
    requires Over(s) && s.meta.head % SECTOR == 0
    ensures items != [] && StoredAt(crc, s.mem, s.meta.head, items[0].rec)
  {
    OverPlaces(crc, s, items, tail, head);
    OldestStored(crc, s.mem, items, tail, head);
  }

  lemma StoredReads(crc: Checksum, mem: seq<byte>, a: nat, x: Record)
    requires StoredAt(crc, mem, a, x)
    ensures ReadRecord(crc, mem, a) == Some(Found(x, a)) && mem[a] != 0xFF
  {
    RecordRoundTrip(crc, mem, a, x);
    MagicFirst(crc, mem, a, x);
  }

  lemma MagicFirst(crc: Checksum, mem: seq<byte>, a: nat, x: Record)
    requires a + Size(x) <= |mem| && mem[a..a + Size(x)] == Encode(crc, x)
    ensures mem[a] != 0xFF
  {
    FirstByte(crc, x);
    assert mem[a] == mem[a..a + Size(x)][0];
  }

  /** A change only there where nothing changed. */
  lemma NothingChanged(m: seq<byte>, mem: seq<byte>, h: nat, n: nat)
    requires SameOutside(m, mem, h, n) && h + n <= |mem| && mem[h..h + n] == m[h..h + n]
    ensures m == mem
  {
    forall i | 0 <= i < |mem| ensures m[i] == mem[i] {
      if h <= i < h + n {
        assert mem[i] == mem[h..h + n][i - h] && m[i] == m[h..h + n][i - h];
      }
    }
  }

  /** Programming a record over itself changes nothing. */
  lemma AndItself(m: seq<byte>, mem: seq<byte>, h: nat, data: seq<byte>)
    requires OnlyOverwritten(m, mem, h, data) && mem[h..h + |data|] == data
    ensures m == mem
  {
    ClearsSelf(data);
    TakesExactly(m, mem, h, data);
    NothingChanged(m, mem, h, |data|);
  }

  /** The record looked up at `t` is `x`. */
  predicate Looks(crc: Checksum, mem: seq<byte>, t: nat, x: Record) {
    |mem| == DEVICE && ReadRecord(crc, mem, t).Some? && ReadRecord(crc, mem, t).value.rec == x
  }

  lemma FirstQueued(crc: Checksum, mem: seq<byte>, t: nat, n: nat) returns (q: Option<seq<Record>>)
    requires |mem| == DEVICE && QueueIn(crc, mem) == ReadChain(crc, mem, t, n + 1)
    ensures q == QueueIn(crc, mem) && (q.Some? ==> q.value != [] && Looks(crc, mem, t, q.value[0]))
  {
    q := ReadChain(crc, mem, t, n + 1);
  }

  lemma StoredKind(crc: Checksum, mem: seq<byte>, h: nat, x: Record)
    requires x.kind <= EVENT && h + Size(x) <= |mem| && mem[h..h + Size(x)] == Encode(crc, x)
    ensures mem[h + 4] == PayloadLen(x.kind) && mem[h + 6] == x.kind
  {
    KindBytes(crc, x);
    assert mem[h + 4] == mem[h..h + Size(x)][4] && mem[h + 6] == mem[h..h + Size(x)][6];
  }

  /** Only a record of the same kind leaves the kind byte and the length byte of another as they were. */
  lemma SameKind(crc: Checksum, mem: seq<byte>, m: seq<byte>, h: nat, x: Record, next: Record)
    requires Overwritten(m, mem, h, Encode(crc, next)) && x.kind <= EVENT && next.kind <= EVENT
    requires h + Size(x) <= |m| && mem[h..h + Size(x)] == Encode(crc, x) == m[h..h + Size(x)]
    ensures x.kind == next.kind
  {
    StoredKind(crc, mem, h, x);
    StoredKind(crc, m, h, x);
    KindBytes(crc, next);
    ByteOver(m, mem, h, Encode(crc, next), 4);
    ByteOver(m, mem, h, Encode(crc, next), 6);
    if x.kind != next.kind {
      OtherKindSpoils(next.kind, x.kind);
      AndSwap(x.kind, next.kind);
      AndSwap(PayloadLen(x.kind), PayloadLen(next.kind));
    }
  }

  /** When the oldest record is still read after another was programmed over it, nothing changed. */
  lemma StillOldest(crc: Checksum, mem: seq<byte>, w: seq<byte>, m: seq<byte>, h: nat, x: Record, next: Record)
    requires |mem| == DEVICE && DATA_START <= h && h + SECTOR <= DEVICE && x.kind <= EVENT && next.kind <= EVENT
    requires OnlyOverwritten(w, mem, h, Encode(crc, next)) && SameData(m, w) && mem[h..h + Size(x)] == Encode(crc, x)
    requires Looks(crc, m, h, x)
    ensures w == mem
  {
    DataOverwritten(m, w, mem, h, Encode(crc, next));
    StillBytes(crc, mem, w, m, h, x, next);
    NothingChanged(w, mem, h, Size(x));
  }

  lemma StillBytes(crc: Checksum, mem: seq<byte>, w: seq<byte>, m: seq<byte>, h: nat, x: Record, next: Record)
    requires |m| == DEVICE && DATA_START <= h && h + SECTOR <= DEVICE && x.kind <= EVENT && next.kind <= EVENT
    requires Overwritten(m, mem, h, Encode(crc, next)) && SameData(m, w) && mem[h..h + Size(x)] == Encode(crc, x)
    requires Looks(crc, m, h, x)
    ensures x.kind == next.kind && mem[h..h + Size(x)] == w[h..h + Size(x)]
  {
    StillThere(crc, mem, m, h, x, next);
    SameKind(crc, mem, m, h, x, next);
    SameSlice(w, m, h, Size(x));
  }

  lemma StillThere(crc: Checksum, mem: seq<byte>, m: seq<byte>, h: nat, x: Record, next: Record)
    requires |m| == DEVICE && h + SECTOR <= DEVICE && x.kind <= EVENT && next.kind <= EVENT
    requires Overwritten(m, mem, h, Encode(crc, next))
    requires Looks(crc, m, h, x)
    ensures m[h..h + Size(x)] == Encode(crc, x)
  {
    ProgrammedEnds(crc, mem, m, h, next);
    StartsHere(crc, m, h);
    FoundBytes(crc, m, h, x);
  }

  lemma SameSlice(w: seq<byte>, m: seq<byte>, h: nat, n: nat)
    requires SameData(m, w) && DATA_START <= h && h + n <= DEVICE
    ensures w[h..h + n] == m[h..h + n]
  {
  }

  /** Over the oldest live record the queue is as it should be only when the same record is put again; and what
      is read at the tail is the new record exactly when the oldest covers it. */
  lemma OverExactly(crc: Checksum, s: Ring, items: seq<Item>, tail: Pos, head: Pos, next: Record) returns (u: Ring)
    requires Holding(crc, s.mem, s.active, s.index, s.meta, items, tail, head) && Bounded(s) && next.kind <= EVENT
    requires Over(s) && s.meta.head % SECTOR == 0 && s.meta.seqNo + 1 < WORD
    ensures u == PutRest(crc, s, next) && u.meta.tail == s.meta.tail && u.meta.count == s.meta.count + 1
    ensures items != [] && (QueueIn(crc, u.mem) == Some(RecordsOf(items) + [next]) <==> next == items[0].rec)
    ensures ReadRecord(crc, u.mem, s.meta.tail) == Some(Found(next, s.meta.tail)) <==> Covers(crc, items[0].rec, next)
    ensures Covers(crc, items[0].rec, next) ==>
              QueueIn(crc, u.mem) == Some([next] + RecordsOf(items)[1..] + [next])
  {
    HoldingBounded(crc, s, items, tail, head);
    CountBelow(crc, s.mem, items, tail, head);
    OldestAtHead(crc, s, items, tail, head);
    var w := WrittenHere(crc, s, next);
    var q;
    u, q := OverMeta(crc, s, w, Size(next));
    OverReads(crc, s.mem, w.mem, u.mem, s.meta.head, items[0].rec, next);
    OverQueue(crc, s, w, u, q, items, tail, head, next);
    if Covers(crc, items[0].rec, next) {
      OverCovered(crc, s, w, u, items, tail, head, next);
    }
  }

  lemma OverQueue(crc: Checksum, s: Ring, w: Ring, u: Ring, q: Option<seq<Record>>, items: seq<Item>, tail: Pos,
                  head: Pos, next: Record)
    requires Holding(crc, s.mem, s.active, s.index, s.meta, items, tail, head) && Over(s) && s.meta.head % SECTOR == 0
    requires s.meta.seqNo + 1 < WORD && next.kind <= EVENT && Bounded(w) && w == s.(mem := w.mem)
    requires OnlyOverwritten(w.mem, s.mem, s.meta.head, Encode(crc, next))
    requires u == Journaled(crc, w, PutEntry(w, Size(next))) && SameData(u.mem, w.mem) && q == QueueIn(crc, u.mem)
    requires q.Some? ==> q.value != [] && Looks(crc, u.mem, s.meta.tail, q.value[0])
    ensures items != [] && (q == Some(RecordsOf(items) + [next]) <==> next == items[0].rec)
  {
    OldestAtHead(crc, s, items, tail, head);
    var x := items[0].rec;
    assert (RecordsOf(items) + [next])[0] == x;
    if next == x || Looks(crc, u.mem, s.meta.tail, x) {
      OverOldest(crc, s.mem, w.mem, u.mem, s.meta.head, x, next);
      AgainOldest(crc, w, u, q, items, tail, head, next);
    }
  }

  /** The oldest record is still read only when nothing changed. */
  lemma OverOldest(crc: Checksum, mem: seq<byte>, w: seq<byte>, m: seq<byte>, h: nat, x: Record, next: Record)
    requires StoredAt(crc, mem, h, x) && next.kind <= EVENT
    requires OnlyOverwritten(w, mem, h, Encode(crc, next)) && SameData(m, w)
    requires next == x || Looks(crc, m, h, x)
    ensures w == mem
  {
    if next == x {
      AndItself(w, mem, h, Encode(crc, next));
    } else {
      StillOldest(crc, mem, w, m, h, x, next);
    }
  }

  /** The metadata over the oldest record, and what a reboot then reads. */
  lemma OverMeta(crc: Checksum, s: Ring, w: Ring, z: nat) returns (u: Ring, q: Option<seq<Record>>)
    requires Bounded(s) && Holds(JournalOf(crc, s.mem), s.active, s.index, s.meta) && 0 < z < SECTOR
    requires w == s.(mem := w.mem) && SameOutside(w.mem, s.mem, s.meta.head, z) && s.meta.seqNo + 1 < WORD
    requires s.meta.count < MAX_POSSIBLE_RECORDS
    ensures Bounded(w) && u == Journaled(crc, w, PutEntry(w, z)) && SameData(u.mem, w.mem)
    ensures u.meta.tail == s.meta.tail && u.meta.count == s.meta.count + 1
    ensures q == QueueIn(crc, u.mem) && (q.Some? ==> q.value != [] && Looks(crc, u.mem, s.meta.tail, q.value[0]))
  {
    JournalFrame(crc, s.mem, w.mem, s.meta.head, z);
    u := Committed(crc, w, z);
    q := FirstQueued(crc, u.mem, s.meta.tail, s.meta.count);
  }

  /** Put again, the oldest record is the newest too. */
  lemma AgainOldest(crc: Checksum, s: Ring, u: Ring, q: Option<seq<Record>>, items: seq<Item>, tail: Pos, head: Pos,
                    next: Record)
    requires Holding(crc, s.mem, s.active, s.index, s.meta, items, tail, head) && Bounded(s) && items != []
    requires u == Journaled(crc, s, PutEntry(s, Size(next))) && s.meta.seqNo + 1 < WORD && s.meta.head == s.meta.tail
    requires q == QueueIn(crc, u.mem)
    ensures q == Some(RecordsOf(items) + [next]) <==> next == items[0].rec
  {
    var v := CommittedBehind(crc, s, items, tail, head, next);
    RingFrame(crc, s.mem, u.mem, items, tail, head);
    ReadOldest(crc, u.mem, items, tail, head);
  }

  lemma IsBlended(m: seq<byte>, mem: seq<byte>, h: nat, data: seq<byte>)
    requires Overwritten(m, mem, h, data) && |m| == DEVICE && |data| < SECTOR
    requires DATA_START <= h && h % SECTOR == 0 && h + SECTOR <= REGION
    ensures Blended(m, mem, h, data)
  {
    forall i | h <= i < h + |data| ensures m[i] == BitAnd(mem[i], data[i - h]) {
      ByteOver(m, mem, h, data, i - h);
    }
  }

  lemma OverReads(crc: Checksum, mem: seq<byte>, w: seq<byte>, m: seq<byte>, h: nat, x: Record, next: Record)
    requires StoredAt(crc, mem, h, x) && next.kind <= EVENT
    requires OnlyOverwritten(w, mem, h, Encode(crc, next)) && SameData(m, w)
    ensures ReadRecord(crc, m, h) == Some(Found(next, h)) <==> Covers(crc, x, next)
  {
    DataOverwritten(m, w, mem, h, Encode(crc, next));
    IsBlended(m, mem, h, Encode(crc, next));
    StoredOver(crc, mem, m, h, x, next);
  }

  lemma TakesCovers(crc: Checksum, mem: seq<byte>, a: nat, was: Record, next: Record)
    requires |mem| == DEVICE && DATA_START <= a && a % SECTOR == 0 && a + SECTOR <= REGION
    requires was.kind <= EVENT && next.kind <= EVENT && mem[a..a + Size(was)] == Encode(crc, was)
    ensures Takes(mem, a, Encode(crc, next)) <==> Covers(crc, was, next)
  {
    var m := Programmed(mem, a, Encode(crc, next));
    ProgramOverwrites(mem, a, Encode(crc, next));
    ProgrammedReads(crc, mem, m, a, next);
    IsBlended(m, mem, a, Encode(crc, next));
    StoredOver(crc, mem, m, a, was, next);
  }

  /** The oldest record replaced where it is. */
  lemma ReplaceOldest(crc: Checksum, mem: seq<byte>, w: seq<byte>, items: seq<Item>, tail: Pos, head: Pos, next: Record)
    returns (replaced: seq<Item>)
    requires Live(crc, mem, items, tail, head) && items != [] && tail.off == head.off == 0 && head.sec == tail.sec + 253
    requires next.kind <= EVENT && next.kind == items[0].rec.kind && BytesAt(w, tail, Encode(crc, next))
    requires SameOutside(w, mem, Place(head), Size(next))
    ensures Live(crc, w, replaced, tail, head) && RecordsOf(replaced) == [next] + RecordsOf(items)[1..]
  {
    var it := Item(tail, next);
    assert items[0].at == tail && End(it) == End(items[0]);
    ChainGrows(crc, mem, items[1..], End(it), head);
    OutsideLive(mem, w, End(it), head, head, Size(next));
    ChainFrame(crc, mem, w, items[1..], End(it), head, End(it));
    replaced := FirstReplaced(items, it);
  }

  lemma FirstReplaced(items: seq<Item>, it: Item) returns (replaced: seq<Item>)
    requires items != []
    ensures replaced != [] && replaced[0] == it && replaced[1..] == items[1..]
    ensures RecordsOf(replaced) == [it.rec] + RecordsOf(items)[1..]
  {
    replaced := [it] + items[1..];
  }

  lemma CoveredStored(crc: Checksum, mem: seq<byte>, w: seq<byte>, a: nat, x: Record, next: Record)
    requires StoredAt(crc, mem, a, x) && next.kind <= EVENT && Covers(crc, x, next)
    requires OnlyOverwritten(w, mem, a, Encode(crc, next))
    ensures w[a..a + Size(next)] == Encode(crc, next) && SameOutside(w, mem, a, Size(next)) && next.kind == x.kind
  {
    TakesCovers(crc, mem, a, x, next);
    TakesExactly(w, mem, a, Encode(crc, next));
  }

  /** A record that the oldest covers takes its place, and is the newest besides. */
  lemma OverCovered(crc: Checksum, s: Ring, w: Ring, u: Ring, items: seq<Item>, tail: Pos, head: Pos, next: Record)
    requires Holding(crc, s.mem, s.active, s.index, s.meta, items, tail, head) && Over(s) && s.meta.head % SECTOR == 0
    requires s.meta.seqNo + 1 < WORD && next.kind <= EVENT && Bounded(w) && w == s.(mem := w.mem)
    requires OnlyOverwritten(w.mem, s.mem, s.meta.head, Encode(crc, next))
    requires u == Journaled(crc, w, PutEntry(w, Size(next))) && SameData(u.mem, w.mem)
    requires items != [] && Covers(crc, items[0].rec, next)
    ensures QueueIn(crc, u.mem) == Some([next] + RecordsOf(items)[1..] + [next])
  {
    OldestAtHead(crc, s, items, tail, head);
    OverPlaces(crc, s, items, tail, head);
    CoveredStored(crc, s.mem, w.mem, Place(head), items[0].rec, next);
    OverReplaced(crc, s, w, u, items, tail, head, next);
  }

  lemma OverReplaced(crc: Checksum, s: Ring, w: Ring, u: Ring, items: seq<Item>, tail: Pos, head: Pos, next: Record)
    requires Holding(crc, s.mem, s.active, s.index, s.meta, items, tail, head) && items != []
    requires tail.off == head.off == 0 && head.sec == tail.sec + 253 && s.meta.seqNo + 1 < WORD && next.kind <= EVENT
    requires Bounded(w) && w == s.(mem := w.mem) && u == Journaled(crc, w, PutEntry(w, Size(next)))
    requires SameData(u.mem, w.mem) && next.kind == items[0].rec.kind && DATA_START <= Place(tail) == Place(head)
    requires BytesAt(w.mem, tail, Encode(crc, next)) && SameOutside(w.mem, s.mem, Place(head), Size(next))
    ensures QueueIn(crc, u.mem) == Some([next] + RecordsOf(items)[1..] + [next])
  {
    JournalFrame(crc, s.mem, w.mem, Place(head), Size(next));
    var replaced := ReplaceOldest(crc, s.mem, w.mem, items, tail, head, next);
    Replaced(crc, w, u, replaced, tail, head, next);
  }

  lemma Replaced(crc: Checksum, w: Ring, u: Ring, items: seq<Item>, tail: Pos, head: Pos, next: Record)
    requires Holding(crc, w.mem, w.active, w.index, w.meta, items, tail, head) && items != [] && items[0].rec == next
    requires w.meta.seqNo + 1 < WORD && Bounded(w) && Place(tail) == Place(head)
    requires u == Journaled(crc, w, PutEntry(w, Size(next))) && SameData(u.mem, w.mem)
    ensures QueueIn(crc, u.mem) == Some(RecordsOf(items) + [next])
  {
    var v := CommittedBehind(crc, w, items, tail, head, next);
    RingFrame(crc, w.mem, u.mem, items, tail, head);
    ReadOldest(crc, u.mem, items, tail, head);
  }

  // ---------------------------------------------------------------- the queue after an exact fill

  /** What a put that erases nothing makes of a ring that reads `queue` when the drop loop drops `k` records.
      Unless the head is at the tail the older records stay readable, and the queue gets the new record if
      and only if every bit it needs is still set where it goes.  With the head at the tail, at a sector's
      start, the put goes over the oldest record without dropping it: the queue is right only if the new
      record is that record again.  The tail reads the new record if and only if the oldest covers it, and
      then the newest record comes out first, and once more at the end, and the oldest is gone. */
  ghost predicate Unerased(crc: Checksum, s: Ring, queue: seq<Record>, next: Record, k: nat, u: Ring) {
    && Bounded(s) && |u.mem| == DEVICE && k <= |queue| && (k > 0 ==> !Room(s, Size(next)))
    && (!Over(s) ==>
          var takes := Takes(s.mem, s.meta.head, Encode(crc, next));
          && ReadChain(crc, u.mem, u.meta.tail, |queue| - k) == Some(queue[k..])
          && (QueueIn(crc, u.mem) == Some(queue[k..] + [next]) <==> takes)
          && (takes ==> Reads(crc, u, queue[k..] + [next])))
    && (Over(s) && s.meta.head % SECTOR == 0 ==>
          && k == 0 && queue != [] && u.meta.tail == s.meta.tail && u.meta.count == |queue| + 1
          && (QueueIn(crc, u.mem) == Some(queue + [next]) <==> next == queue[0])
          && (ReadRecord(crc, u.mem, u.meta.tail) == Some(Found(next, u.meta.tail)) <==> Covers(crc, queue[0], next))
          && (Covers(crc, queue[0], next) ==> QueueIn(crc, u.mem) == Some([next] + queue[1..] + [next])))
  }

  /** A PUT THAT ERASES NOTHING, EXACTLY: from any ring that reads `queue`, whatever is in the head's sector, and any
      record that fits there. */
  lemma PutUnerased(crc: Checksum, s: Ring, queue: seq<Record>, next: Record) returns (k: nat, u: Ring)
    requires Reads(crc, s, queue) && next.kind <= EVENT && s.meta.head % SECTOR + Size(next) <= SECTOR
    requires s.meta.seqNo + |queue| + 1 < WORD
    ensures Bounded(s) && u == Put(crc, s, next) && Unerased(crc, s, queue, next, k, u)
  {
    var items, tail, head := ReadsBounded(crc, s, queue);
    if Over(s) {
      k := 0;
      u := PutOver(crc, s, items, tail, head, next);
    } else {
      k, u := PutClear(crc, s, items, tail, head, next);
    }
  }

  lemma PutOver(crc: Checksum, s: Ring, items: seq<Item>, tail: Pos, head: Pos, next: Record) returns (u: Ring)
    requires Holding(crc, s.mem, s.active, s.index, s.meta, items, tail, head) && Bounded(s) && next.kind <= EVENT
    requires Over(s) && s.meta.head % SECTOR + Size(next) <= SECTOR && s.meta.seqNo + 1 < WORD
    ensures u == Put(crc, s, next) && Unerased(crc, s, RecordsOf(items), next, 0, u)
  {
    HoldingBounded(crc, s, items, tail, head);
    PlaceFacts(head);
    OverMeans(crc, s, items, tail, head);
    RoomLeft(crc, s, items, tail, head, Size(next));
    u := Put(crc, s, next);
    if s.meta.head % SECTOR == 0 {
      u := OverExactly(crc, s, items, tail, head, next);
    }
  }

  lemma PutClear(crc: Checksum, s: Ring, items: seq<Item>, tail: Pos, head: Pos, next: Record)
    returns (k: nat, u: Ring)
    requires Holding(crc, s.mem, s.active, s.index, s.meta, items, tail, head) && Bounded(s) && next.kind <= EVENT
    requires !Over(s) && s.meta.head % SECTOR + Size(next) <= SECTOR && s.meta.seqNo + |items| + 1 < WORD
    ensures u == Put(crc, s, next) && Unerased(crc, s, RecordsOf(items), next, k, u)
  {
    HoldingBounded(crc, s, items, tail, head);
    PlaceFacts(head);
    var t;
    k, t := RoomHolds(crc, s, items, tail, head, Size(next));
    var rest := Dropped(items, k);
    var r := MakeRoom(crc, s, Size(next));
    RoomLeft(crc, r, rest, t, head, Size(next));
    u := AppendedExactly(crc, r, rest, t, head, next);
    MakeRoomData(crc, s, Size(next));
    SameTakes(r.mem, s.mem, s.meta.head, Encode(crc, next));
  }

  lemma SameTakes(m: seq<byte>, mem: seq<byte>, a: nat, data: seq<byte>)
    requires SameData(m, mem) && DATA_START <= a && a + |data| <= DEVICE
    ensures Takes(m, a, data) <==> Takes(mem, a, data)
  {
    SameSlice(m, mem, a, |data|);
  }

  /** Blank bytes take any record. */
  lemma TakesRecord(crc: Checksum, mem: seq<byte>, a: nat, next: Record)
    requires |mem| == DEVICE && a + Size(next) <= DEVICE
    ensures BlankRange(mem, a, Size(next)) ==> Takes(mem, a, Encode(crc, next)) && mem[a] == 0xFF
  {
    if BlankRange(mem, a, Size(next)) {
      var was, data := mem[a..a + Size(next)], Encode(crc, next);
      forall i | 0 <= i < Size(next) ensures BitAnd(was[i], data[i]) == data[i] {
        AndBlank(data[i]);
      }
    }
  }

  lemma NotOverBlank(crc: Checksum, s: Ring, queue: seq<Record>)
    requires Reads(crc, s, queue) && s.meta.head % SECTOR == 0 && Bounded(s) && s.mem[s.meta.head] == 0xFF
    ensures !Over(s)
  {
    var items, tail, head := ReadsBounded(crc, s, queue);
    if Over(s) {
      OldestAtHead(crc, s, items, tail, head);
      StoredReads(crc, s.mem, s.meta.head, items[0].rec);
    }
  }

  /** On a blank sector that the tail is not in the ring is sound. */
  lemma BlankSectorKeeps(crc: Checksum, s: Ring, queue: seq<Record>)
    requires Reads(crc, s, queue) && Bounded(s) && s.meta.head % SECTOR == 0
    requires BlankRange(s.mem, s.meta.head, SECTOR)
    requires s.meta.count > 0 ==> s.meta.tail / SECTOR != s.meta.head / SECTOR
    ensures Keeps(crc, s, queue) && HasMagicRoom(s)
  {
    var items, tail, head := ReadsBounded(crc, s, queue);
    HoldingBounded(crc, s, items, tail, head);
    PlaceFacts(head);
    SameSector(tail, head);
    Closed(crc, s, items, tail, head);
  }

  /** What the put that fills a sector exactly leaves. */
  lemma Fills(crc: Checksum, s: Ring, queue: seq<Record>, rec: Record) returns (j: nat, r: Ring)
    requires Keeps(crc, s, queue) && HasMagicRoom(s) && Bounded(s) && Leftover(s, rec) == 0 && rec.kind <= EVENT
    requires s.meta.seqNo + |queue| + 3 < WORD
    ensures r == Put(crc, s, rec) && Bounded(r) && j <= |queue| && Reads(crc, r, queue[j..] + [rec])
    ensures j > 0 ==> !Room(s, Size(rec))
    ensures r.meta.seqNo + |queue[j..] + [rec]| + 1 < WORD
    ensures r.meta.head % SECTOR == 0 && DATA_START <= r.meta.head && r.meta.head + SECTOR <= REGION
  {
    j := PutRefines(crc, s, queue, rec);
    r := Put(crc, s, rec);
    PutHead(crc, s, rec);
    FillPlace(s.meta.head, Size(rec));
  }

  /** EDGE 1, EXACTLY.  A put that fills its sector is itself kept, but the next one is programmed into the next
      sector without an erase. */
  lemma ExactFillExactly(crc: Checksum, s: Ring, queue: seq<Record>, rec: Record, next: Record)
    returns (j: nat, r: Ring, k: nat, u: Ring)
    requires Keeps(crc, s, queue) && HasMagicRoom(s) && Bounded(s) && Leftover(s, rec) == 0
    requires rec.kind <= EVENT && next.kind <= EVENT && s.meta.seqNo + |queue| + 3 < WORD
    ensures r == Put(crc, s, rec) && u == Put(crc, r, next) && r.meta.head % SECTOR == 0
    ensures j <= |queue| && Reads(crc, r, queue[j..] + [rec]) && (j > 0 ==> !Room(s, Size(rec)))
    ensures Unerased(crc, r, queue[j..] + [rec], next, k, u)
  {
    j, r := Fills(crc, s, queue, rec);
    k, u := PutUnerased(crc, r, queue[j..] + [rec], next);
  }

  /** EDGE 1, ON A BLANK SECTOR, where it does no harm: the next record is in the queue, and as long as the tail is
      in another sector the ring is as sound as before. */
  lemma KeptOnBlank(crc: Checksum, r: Ring, held: seq<Record>, next: Record, k: nat, u: Ring)
    requires Reads(crc, r, held) && r.meta.head % SECTOR == 0 && Unerased(crc, r, held, next, k, u)
    requires r.meta.head + SECTOR <= DEVICE
    ensures BlankRange(r.mem, r.meta.head, Size(next)) ==> Reads(crc, u, held[k..] + [next])
    ensures BlankRange(r.mem, r.meta.head, SECTOR) && r.meta.tail / SECTOR != r.meta.head / SECTOR ==>
              Keeps(crc, r, held) && HasMagicRoom(r)
  {
    TakesRecord(crc, r.mem, r.meta.head, next);
    if BlankRange(r.mem, r.meta.head, Size(next)) {
      NotOverBlank(crc, r, held);
    }
    if BlankRange(r.mem, r.meta.head, SECTOR) && r.meta.tail / SECTOR != r.meta.head / SECTOR {
      BlankSectorKeeps(crc, r, held);
    }
  }

  lemma OldestIs(crc: Checksum, r: Ring, held: seq<Record>, was: Record)
    requires Reads(crc, r, held) && Bounded(r) && r.meta.head % SECTOR == 0 && Over(r) && was.kind <= EVENT
    requires r.meta.head + Size(was) <= DEVICE
    requires r.mem[r.meta.head..r.meta.head + Size(was)] == Encode(crc, was)
    ensures held != [] && held[0] == was
  {
    var items, tail, head := ReadsBounded(crc, r, held);
    OldestAtHead(crc, r, items, tail, head);
    StoredReads(crc, r.mem, r.meta.head, items[0].rec);
    RecordRoundTrip(crc, r.mem, r.meta.head, was);
  }

  lemma HeadIn(r: Ring)
    requires Bounded(r) && r.meta.head % SECTOR == 0
    ensures DATA_START <= r.meta.head && r.meta.head + SECTOR <= REGION
  {
  }

  /** EDGE 1, BEHIND A LAP.  Where the next sector still begins with an old record, the queue gets the next one if and
      only if it is of the same kind and every bit set in its time, boot generation, payload and checksum is
      set in the old record's; where that record is still the oldest of the queue, only if it is that record. */
  lemma KeptBehindLap(crc: Checksum, r: Ring, held: seq<Record>, was: Record, next: Record, k: nat, u: Ring)
    requires Reads(crc, r, held) && r.meta.head % SECTOR == 0 && Unerased(crc, r, held, next, k, u)
    requires r.meta.head + SECTOR <= DEVICE && was.kind <= EVENT && next.kind <= EVENT
    requires r.mem[r.meta.head..r.meta.head + Size(was)] == Encode(crc, was)
    ensures QueueIn(crc, u.mem) == Some(held[k..] + [next]) <==> if Over(r) then next == was else Covers(crc, was, next)
  {
    HeadIn(r);
    TakesCovers(crc, r.mem, r.meta.head, was, next);
    if Over(r) {
      OldestIs(crc, r, held, was);
      assert held[k..] == held;
    }
  }
}

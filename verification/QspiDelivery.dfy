/** What the ring hands out when it is peeked and consumed until it says it is empty, and what that is when the
    last records were put behind one to three bytes left over at the end of a sector. */
module QspiDelivery {
  import opened Words
  import opened Records
  import opened QspiLayout
  import opened QspiJournal
  import opened QspiBuffer
  import opened QspiEdges
  import opened QspiFill

  // ---------------------------------------------------------------- peeking and consuming to the end

  /** A lookup's record, when there is one. */
  function Looked(crc: Checksum, mem: seq<byte>, t: nat): (rs: seq<Record>)
    requires |mem| == DEVICE
    ensures |rs| <= 1
  {
    match ReadRecord(crc, mem, t)
    case None => []
    case Some(found) => [found.rec]
  }

  /** The records that a peek and a consume at a time hand out.  A lookup that fails hands out none: the peek
      consumes it itself and counts a drop. */
  function HandsOut(crc: Checksum, s: Ring): (rs: seq<Record>)
    requires Bounded(s)
    ensures |rs| <= s.meta.count
    decreases s.meta.count
  {
    if s.meta.count == 0 then [] else Looked(crc, s.mem, s.meta.tail) + HandsOut(crc, Consumed(crc, s))
  }

  /** The same `n` lookups on a device that does not change. */
  function Delivered(crc: Checksum, mem: seq<byte>, t: nat, n: nat): seq<Record>
    requires |mem| == DEVICE
    decreases n
  {
    if n == 0 then [] else Looked(crc, mem, t) + Delivered(crc, mem, AfterRecord(mem, t), n - 1)
  }

  lemma SameU32(m: seq<byte>, mem: seq<byte>, a: nat)
    requires SameData(m, mem) && DATA_START <= a && a + 4 <= DEVICE
    ensures U32At(m, a) == U32At(mem, a)
  {
    SameSlice(m, mem, a, 4);
    SameNumber(m, mem, a, a, 4);
  }

  lemma SameU16(m: seq<byte>, mem: seq<byte>, a: nat)
    requires SameData(m, mem) && DATA_START <= a && a + 2 <= DEVICE
    ensures U16At(m, a) == U16At(mem, a)
  {
    SameSlice(m, mem, a, 2);
    SameNumber(m, mem, a, a, 2);
  }

  lemma NextSectorIn(t: nat)
    requires DATA_START <= t < REGION
    ensures DATA_START <= NextSector(t) < REGION && NextSector(t) + 16 <= DEVICE && t + 16 <= DEVICE
  {
  }

  lemma SameHeader(m: seq<byte>, mem: seq<byte>, t: nat)
    requires SameData(m, mem) && DATA_START <= t < REGION
    ensures ReadHeader(m, t) == ReadHeader(mem, t)
  {
    NextSectorIn(t);
    SameU32(m, mem, t);
    var s := if U32At(mem, t) == BLANK_WORD then NextSector(t) else t;
    SameU32(m, mem, s);
    SameU16(m, mem, s + 4);
  }

  /** Lookups see the data sectors only. */
  lemma SameLookups(crc: Checksum, m: seq<byte>, mem: seq<byte>, t: nat)
    requires SameData(m, mem) && DATA_START <= t < REGION
    ensures ReadRecord(crc, m, t) == ReadRecord(crc, mem, t) && AfterRecord(m, t) == AfterRecord(mem, t)
  {
    SameHeader(m, mem, t);
    if ReadHeader(mem, t).Some? {
      var s := ReadHeader(mem, t).value;
      SameU16(m, mem, s + 4);
      var len := U16At(mem, s + 4);
      SameSlice(m, mem, s, HEADER + len);
      SameSlice(m, mem, s + HEADER, len);
      SameU32(m, mem, s + 8);
      SameU32(m, mem, s + 12);
      SameU32(m, mem, s + HEADER + len);
    }
  }

  lemma {:induction false} DeliveredFrame(crc: Checksum, m: seq<byte>, mem: seq<byte>, t: nat, n: nat)
    requires SameData(m, mem) && DATA_START <= t < REGION
    ensures Delivered(crc, m, t, n) == Delivered(crc, mem, t, n)
    decreases n
  {
    if n > 0 {
      SameLookups(crc, m, mem, t);
      DeliveredFrame(crc, m, mem, AfterRecord(mem, t), n - 1);
    }
  }

  lemma FirstHanded(crc: Checksum, s: Ring) returns (r: Ring)
    requires Bounded(s) && s.meta.count > 0
    ensures r == Consumed(crc, s) && Bounded(r) && SameData(r.mem, s.mem) && r.meta.count == s.meta.count - 1
    ensures r.meta.tail == AfterRecord(s.mem, s.meta.tail)
    ensures HandsOut(crc, s) == Looked(crc, s.mem, s.meta.tail) + HandsOut(crc, r)
  {
    JournaledData(crc, s, ConsumedEntry(s));
    r := Consumed(crc, s);
  }

  /** Consuming rewrites the journal only, so the records handed out are those on the device now. */
  lemma {:induction false} HandsOutIs(crc: Checksum, s: Ring)
    requires Bounded(s)
    ensures HandsOut(crc, s) == Delivered(crc, s.mem, s.meta.tail, s.meta.count)
    decreases s.meta.count
  {
    if s.meta.count > 0 {
      var r := FirstHanded(crc, s);
      HandsOutIs(crc, r);
      DeliveredFrame(crc, r.mem, s.mem, r.meta.tail, r.meta.count);
    }
  }

  /** One readable record and what is behind it, in `d` as in `q`. */
  lemma OneHanded(crc: Checksum, mem: seq<byte>, t: nat, n: nat, q: seq<Record>, e: nat, total: nat, d: seq<Record>)
    returns (t': nat, n': nat, rest: seq<Record>, total': nat, d': seq<Record>)
    requires |mem| == DEVICE && n > 0 && ReadChain(crc, mem, t, n) == Some(q) && e == ReaderEnd(mem, t, n)
    requires total > 0 && d == Delivered(crc, mem, t, total)
    ensures n == n' + 1 && total == total' + 1 && q != [] && q == [q[0]] + rest && d == [q[0]] + d'
    ensures ReadChain(crc, mem, t', n') == Some(rest) && e == ReaderEnd(mem, t', n')
    ensures d' == Delivered(crc, mem, t', total')
  {
    t', n', rest, total' := AfterRecord(mem, t), n - 1, q[1..], total - 1;
    d' := Delivered(crc, mem, t', total');
  }

  /** Readable records are handed out, and then what is behind them. */
  lemma {:induction false} DeliveredPrefix(crc: Checksum, mem: seq<byte>, t: nat, n: nat, q: seq<Record>, e: nat,
                                           more: nat, last: seq<Record>, total: nat, d: seq<Record>)
    requires |mem| == DEVICE && ReadChain(crc, mem, t, n) == Some(q) && e == ReaderEnd(mem, t, n)
    requires last == Delivered(crc, mem, e, more) && total == n + more && d == Delivered(crc, mem, t, total)
    ensures d == q + last
    decreases n
  {
    if n == 0 {
      NoneRead(crc, mem, t, n, q, e);
      Nothing(q, last);
    } else {
      var t', n', rest, total', d' := OneHanded(crc, mem, t, n, q, e, total, d);
      DeliveredPrefix(crc, mem, t', n', rest, e, more, last, total', d');
      Joined(d, q, d', rest, last, q[0]);
    }
  }

  lemma NoneRead(crc: Checksum, mem: seq<byte>, t: nat, n: nat, q: seq<Record>, e: nat)
    requires |mem| == DEVICE && n == 0 && ReadChain(crc, mem, t, n) == Some(q) && e == ReaderEnd(mem, t, n)
    ensures q == [] && e == t
  {
  }

  lemma Joined<T>(d: seq<T>, q: seq<T>, d': seq<T>, rest: seq<T>, last: seq<T>, x: T)
    requires d == [x] + d' && d' == rest + last && q == [x] + rest
    ensures d == q + last
  {
  }

  lemma Nothing<T>(x: seq<T>, y: seq<T>)
    requires x == []
    ensures x + y == y
  {
  }

  /** The first of the readable records. */
  lemma {:induction false} DeliveredSome(crc: Checksum, mem: seq<byte>, t: nat, n: nat, q: seq<Record>, j: nat,
                                         d: seq<Record>)
    requires |mem| == DEVICE && ReadChain(crc, mem, t, n) == Some(q) && j <= n && d == Delivered(crc, mem, t, j)
    ensures j <= |q| && d == q[..j]
    decreases n
  {
    if j > 0 {
      var t', n', rest, j', d' := OneHanded(crc, mem, t, n, q, ReaderEnd(mem, t, n), j, d);
      DeliveredSome(crc, mem, t', n', rest, j', d');
      FirstOfPrefix(q[0], rest, j);
    }
  }

  lemma FirstOfPrefix<T>(x: T, rest: seq<T>, j: nat)
    requires 0 < j <= |rest| + 1
    ensures ([x] + rest)[..j] == [x] + rest[..j - 1]
  {
  }

  /** A ring that reads `queue` hands out `queue`. */
  lemma ReadsHandsOut(crc: Checksum, s: Ring, queue: seq<Record>)
    requires Reads(crc, s, queue)
    ensures Bounded(s) && HandsOut(crc, s) == queue
  {
    var items, tail, head := ReadsBounded(crc, s, queue);
    ChainReads(crc, s.mem, items, tail, head);
    HandsOutIs(crc, s);
    DeliveredSome(crc, s.mem, s.meta.tail, |queue|, queue, |queue|, HandsOut(crc, s));
    assert queue[..|queue|] == queue;
  }

  // ---------------------------------------------------------------- records behind a few bytes left over

  /** The bytes left over are the last of the last sector, and those of the reserved sector behind them that a
      magic word reaches are blank. */
  predicate AcrossReserved(s: Ring)
    requires Bounded(s)
  {
    NextSector(s.meta.head) == DATA_START && forall i :: REGION <= i < s.meta.head + 4 ==> s.mem[i] == 0xFF
  }

  /** The records `items` up to the bytes left over at `gap`, and the records `more` behind them. */
  ghost predicate Gapped(crc: Checksum, s: Ring, items: seq<Item>, tail: Pos, gap: Pos, more: seq<Item>, head: Pos) {
    && Bounded(s) && Holds(JournalOf(crc, s.mem), s.active, s.index, s.meta)
    && Chain(crc, s.mem, items, tail, gap) && gap.off > SECTOR - 4
    && Chain(crc, s.mem, more, NextPos(gap), head) && more != [] && head.sec == gap.sec + 1 <= tail.sec + 252
    && Describes(s.meta, |items| + |more|, tail, head) && Fresh(s.mem, head)
  }

  /** A magic word that begins blank and does not go on so. */
  predicate Straddles(mem: seq<byte>, a: nat) {
    && |mem| == DEVICE && a + 4 <= DEVICE
    && mem[a] == 0xFF && !(mem[a + 1] == 0xFF && mem[a + 2] == 0xFF && mem[a + 3] == 0xFF)
  }

  lemma StraddlesUnreadable(crc: Checksum, mem: seq<byte>, a: nat)
    requires Straddles(mem, a)
    ensures ReadHeader(mem, a) == None && ReadRecord(crc, mem, a) == None
    ensures AfterRecord(mem, a) == Wrap((a / SECTOR + 1) * SECTOR)
  {
    MixedMagicUnreadable(mem, a, if mem[a + 1] != 0xFF then 1 else if mem[a + 2] != 0xFF then 2 else 3);
  }

  lemma ChainData(crc: Checksum, mem: seq<byte>, m: seq<byte>, items: seq<Item>, tail: Pos, head: Pos)
    requires Chain(crc, mem, items, tail, head) && SameData(m, mem)
    ensures Chain(crc, m, items, tail, head) && (Fresh(mem, head) ==> Fresh(m, head))
  {
    ChainFrame(crc, mem, m, items, tail, head, tail);
  }

  lemma GapCount(crc: Checksum, s: Ring, items: seq<Item>, tail: Pos, gap: Pos, more: seq<Item>, head: Pos)
    requires Gapped(crc, s, items, tail, gap, more, head)
    ensures |items| + |more| < MAX_POSSIBLE_RECORDS && 40 <= head.off < SECTOR && tail.off < SECTOR && gap.off < SECTOR
    ensures Before(tail, gap)
  {
    ChainRoom(crc, s.mem, items, tail, gap);
    ChainRoom(crc, s.mem, more, NextPos(gap), head);
    ChainGrows(crc, s.mem, items, tail, gap);
    ChainGrows(crc, s.mem, more, NextPos(gap), head);
  }

  /** The lookup at the bytes left over fails and is spent on the skip, so the newest record is not reached. */
  lemma GapDelivers(crc: Checksum, s: Ring, items: seq<Item>, tail: Pos, gap: Pos, more: seq<Item>, head: Pos,
                    last: seq<Record>)
    requires Gapped(crc, s, items, tail, gap, more, head) && Straddles(s.mem, Place(gap))
    requires last == RecordsOf(more)[..|more| - 1]
    ensures HandsOut(crc, s) == RecordsOf(items) + last
  {
    GapCount(crc, s, items, tail, gap, more, head);
    HandsOutIs(crc, s);
    GapReads(crc, s.mem, items, tail, gap, more, head, last, s.meta.tail, s.meta.count);
  }

  lemma GapReads(crc: Checksum, mem: seq<byte>, items: seq<Item>, tail: Pos, gap: Pos, more: seq<Item>, head: Pos,
                 last: seq<Record>, t: nat, n: nat)
    requires Chain(crc, mem, items, tail, gap) && Chain(crc, mem, more, NextPos(gap), head) && gap.off < SECTOR
    requires Straddles(mem, Place(gap)) && more != [] && last == RecordsOf(more)[..|more| - 1]
    requires t == Place(tail) && n == |items| + |more|
    ensures Delivered(crc, mem, t, n) == RecordsOf(items) + last
  {
    ChainReads(crc, mem, items, tail, gap);
    ChainReads(crc, mem, more, NextPos(gap), head);
    GapNext(crc, mem, gap);
    AfterSkip(crc, mem, Place(gap), Place(NextPos(gap)), RecordsOf(more), |more|, last);
    DeliveredPrefix(crc, mem, t, |items|, RecordsOf(items), Place(gap), |more|, last, n, Delivered(crc, mem, t, n));
  }

  lemma GapNext(crc: Checksum, mem: seq<byte>, gap: Pos)
    requires Straddles(mem, Place(gap)) && gap.off < SECTOR
    ensures ReadRecord(crc, mem, Place(gap)) == None && AfterRecord(mem, Place(gap)) == Place(NextPos(gap))
  {
    PlaceFacts(gap);
    StraddlesUnreadable(crc, mem, Place(gap));
  }

  lemma AfterSkip(crc: Checksum, mem: seq<byte>, a: nat, b: nat, p: seq<Record>, n: nat, last: seq<Record>)
    requires |mem| == DEVICE && ReadRecord(crc, mem, a) == None && AfterRecord(mem, a) == b
    requires n > 0 && |p| == n && ReadChain(crc, mem, b, n) == Some(p) && last == p[..n - 1]
    ensures Delivered(crc, mem, a, n) == last
  {
    DeliveredSome(crc, mem, b, n, p, n - 1, Delivered(crc, mem, b, n - 1));
    GapSkipped(crc, mem, a, n);
  }

  lemma GapSkipped(crc: Checksum, mem: seq<byte>, t: nat, n: nat)
    requires |mem| == DEVICE && n > 0 && ReadRecord(crc, mem, t) == None
    ensures Delivered(crc, mem, t, n) == Delivered(crc, mem, AfterRecord(mem, t), n - 1)
  {
    Nothing(Looked(crc, mem, t), Delivered(crc, mem, AfterRecord(mem, t), n - 1));
  }

  // ---------------------------------------------------------------- entering the sector behind them

  /** Data sectors `m` are those of `mem` after programming a record at `p` on blank flash. */
  lemma ProgrammedAt(crc: Checksum, mem: seq<byte>, p: Pos, rec: Record) returns (m: seq<byte>)
    requires Fresh(mem, p) && p.off + Size(rec) < SECTOR && rec.kind <= EVENT
    ensures m == Programmed(mem, Place(p), Encode(crc, rec)) && SameOutside(m, mem, Place(p), Size(rec))
    ensures Stored(crc, m, Item(p, rec)) && Fresh(m, End(Item(p, rec)))
  {
    var data := Encode(crc, rec);
    m := Programmed(mem, Place(p), data);
    ProgramBlank(mem, Place(p), data);
    FreshBehind(mem, p, data);
  }

  lemma OneChain(crc: Checksum, mem: seq<byte>, it: Item)
    requires Stored(crc, mem, it) && it.at.off + Size(it.rec) < SECTOR
    ensures Chain(crc, mem, [it], it.at, End(it))
  {
    var items := [it];
    assert items[1..] == [];
    assert Chain(crc, mem, items[1..], End(items[0]), End(it));
  }

  lemma OneRecordOf(items: seq<Item>, it: Item)
    requires items == [it]
    ensures RecordsOf(items) == [it.rec]
  {
  }

  /** The device and the cursor when the next sector has been erased and the record programmed at its start. */
  lemma SectorWritten(crc: Checksum, r: Ring, items: seq<Item>, tail: Pos, head: Pos, next: Record) returns (w: Ring)
    requires Represents(crc, r, items, tail, head) && head.off > SECTOR - 4 && head.sec + 1 <= tail.sec + 252
    requires next.kind <= EVENT
    ensures Bounded(r) && w == Written(crc, Entered(r, Size(next)), next) && w == r.(mem := w.mem)
    ensures Holding(crc, w.mem, w.active, w.index, w.meta, items, tail, head)
    ensures var it := Item(NextPos(head), next); Stored(crc, w.mem, it) && Fresh(w.mem, End(it))
    ensures Target(r.meta.head, Size(next)) == Place(NextPos(head))
  {
    HoldingBounded(crc, r, items, tail, head);
    var q, z := NextPos(head), Size(next);
    PlaceFacts(head);
    PlaceFacts(q);
    var e := Entered(r, z);
    var m := ProgrammedAt(crc, e.mem, q, next);
    w := Written(crc, e, next);
    DataTear(crc, r.mem, r.active, r.index, r.meta, items, tail, head, q, SECTOR, w.mem);
  }

  /** The put that enters the sector behind the bytes left over. */
  lemma GapEnters(crc: Checksum, r: Ring, items: seq<Item>, tail: Pos, head: Pos, next: Record)
    returns (u: Ring, more: seq<Item>, head': Pos)
    requires Represents(crc, r, items, tail, head) && head.off > SECTOR - 4 && head.sec + 1 <= tail.sec + 252
    requires next.kind <= EVENT && r.meta.seqNo + 1 < WORD
    ensures Bounded(r) && u == PutRest(crc, r, next) && u.meta.seqNo == r.meta.seqNo + 1
    ensures RecordsOf(more) == [next] && head'.off == Size(next)
    ensures Gapped(crc, u, items, tail, head, more, head')
  {
    var w := SectorWritten(crc, r, items, tail, head, next);
    u, more, head' := SectorCommitted(crc, w, items, tail, head, Item(NextPos(head), next), Size(next));
  }

  lemma SectorCommitted(crc: Checksum, w: Ring, items: seq<Item>, tail: Pos, head: Pos, it: Item, z: nat)
    returns (u: Ring, more: seq<Item>, head': Pos)
    requires Holding(crc, w.mem, w.active, w.index, w.meta, items, tail, head) && w.meta.seqNo + 1 < WORD
    requires Stored(crc, w.mem, it) && Fresh(w.mem, End(it)) && it.at == NextPos(head) && z == Size(it.rec)
    requires head.off > SECTOR - 4 && head.sec + 1 <= tail.sec + 252 && Target(w.meta.head, z) == Place(it.at)
    ensures Bounded(w) && u == Journaled(crc, w, PutEntry(w, z)) && u.meta.seqNo == w.meta.seqNo + 1
    ensures RecordsOf(more) == [it.rec] && head'.off == z
    ensures Gapped(crc, u, items, tail, head, more, head')
  {
    HoldingBounded(crc, w, items, tail, head);
    CountBelow(crc, w.mem, items, tail, head);
    u := CommittedAt(crc, w, |items|, tail, it, z);
    more, head' := [it], End(it);
    OneRecordOf(more, it);
    SectorChains(crc, w.mem, u.mem, items, tail, head, it, more);
  }

  lemma CommittedAt(crc: Checksum, w: Ring, n: nat, tail: Pos, it: Item, z: nat) returns (u: Ring)
    requires Bounded(w) && Holds(JournalOf(crc, w.mem), w.active, w.index, w.meta) && z == Size(it.rec)
    requires w.meta.seqNo + 1 < WORD && w.meta.count == n < MAX_POSSIBLE_RECORDS && w.meta.tail == Place(tail)
    requires Target(w.meta.head, z) == Place(it.at) && it.at.off + z < SECTOR
    ensures u == Journaled(crc, w, PutEntry(w, z)) && SameData(u.mem, w.mem) && Bounded(u)
    ensures Holds(JournalOf(crc, u.mem), u.active, u.index, u.meta) && u.meta.seqNo == w.meta.seqNo + 1
    ensures Describes(u.meta, n + 1, tail, End(it)) && End(it).off == it.at.off + z && End(it).sec == it.at.sec
  {
    u := Committed(crc, w, z);
    EndPlace(it);
  }

  lemma SectorChains(crc: Checksum, mem: seq<byte>, m: seq<byte>, items: seq<Item>, tail: Pos, head: Pos, it: Item,
                     more: seq<Item>)
    requires Chain(crc, mem, items, tail, head) && Stored(crc, mem, it) && Fresh(mem, End(it)) && SameData(m, mem)
    requires it.at.off + Size(it.rec) < SECTOR && more == [it]
    ensures Chain(crc, m, items, tail, head) && Chain(crc, m, more, it.at, End(it)) && Fresh(m, End(it))
  {
    OneChain(crc, mem, it);
    ChainData(crc, mem, m, items, tail, head);
    ChainData(crc, mem, m, more, it.at, End(it));
  }

  /** A put behind it, in the same sector. */
  lemma GapPut(crc: Checksum, s: Ring, items: seq<Item>, tail: Pos, gap: Pos, more: seq<Item>, head: Pos, rec: Record)
    returns (u: Ring, more': seq<Item>, head': Pos)
    requires Gapped(crc, s, items, tail, gap, more, head) && head.off + Size(rec) < SECTOR
    requires rec.kind <= EVENT && s.meta.seqNo + 1 < WORD
    ensures u == Put(crc, s, rec) && more' == more + [Item(head, rec)] && head'.off == head.off + Size(rec)
    ensures Gapped(crc, u, items, tail, gap, more', head') && u.meta.seqNo == s.meta.seqNo + 1
    ensures Straddles(s.mem, Place(gap)) ==> Straddles(u.mem, Place(gap))
  {
    var z, it := Size(rec), Item(head, rec);
    GapCount(crc, s, items, tail, gap, more, head);
    GapRoom(crc, s, items, tail, gap, more, head, z);
    var m := ProgrammedAt(crc, s.mem, head, rec);
    var w := Written(crc, Entered(s, z), rec);
    GapFrame(crc, s.mem, w.mem, items, tail, gap, more, head, it);
    JournalFrame(crc, s.mem, w.mem, Place(head), z);
    u := Committed(crc, w, z);
    more', head' := more + [it], End(it);
    EndPlace(it);
    ChainData(crc, w.mem, u.mem, items, tail, gap);
    ChainData(crc, w.mem, u.mem, more', NextPos(gap), head');
    StraddlesKept(s.mem, w.mem, u.mem, gap, head, z);
  }

  lemma GapRoom(crc: Checksum, s: Ring, items: seq<Item>, tail: Pos, gap: Pos, more: seq<Item>, head: Pos, z: nat)
    requires Gapped(crc, s, items, tail, gap, more, head) && 0 < z && head.off + z < SECTOR
    ensures Room(s, z) && MakeRoom(crc, s, z) == s && Entered(s, z) == s && Target(s.meta.head, z) == Place(head)
  {
    GapCount(crc, s, items, tail, gap, more, head);
    SameSector(tail, head);
    PlaceFacts(head);
  }

  /** Programming behind the head changes none of the records. */
  lemma GapFrame(crc: Checksum, mem: seq<byte>, m: seq<byte>, items: seq<Item>, tail: Pos, gap: Pos, more: seq<Item>,
                 head: Pos, it: Item)
    requires |mem| == DEVICE && Chain(crc, mem, items, tail, gap) && Chain(crc, mem, more, NextPos(gap), head)
    requires Before(tail, gap) && head.sec == gap.sec + 1 <= tail.sec + 252 && it.at == head
    requires SameOutside(m, mem, Place(head), Size(it.rec)) && Stored(crc, m, it)
    ensures Chain(crc, m, items, tail, gap) && Chain(crc, m, more + [it], NextPos(gap), End(it))
  {
    ChainGrows(crc, mem, more, NextPos(gap), head);
    OutsideLive(mem, m, tail, gap, head, Size(it.rec));
    OutsideLive(mem, m, NextPos(gap), head, head, Size(it.rec));
    ChainFrame(crc, mem, m, items, tail, gap, tail);
    ChainFrame(crc, mem, m, more, NextPos(gap), head, NextPos(gap));
    ChainAppend(crc, m, more, NextPos(gap), head, it);
  }

  lemma StraddlesKept(mem: seq<byte>, w: seq<byte>, u: seq<byte>, gap: Pos, head: Pos, z: nat)
    requires |mem| == DEVICE && SameOutside(w, mem, Place(head), z) && SameData(u, w)
    requires SECTOR - 4 < gap.off < SECTOR && head.sec == gap.sec + 1 && 40 <= head.off && head.off + z <= SECTOR
    ensures Straddles(mem, Place(gap)) ==> Straddles(u, Place(gap))
  {
    var a := Place(gap);
    PlaceFacts(gap);
    PlaceFacts(Pos(head.sec, 0));
    assert Place(head) + z <= a || a + 4 <= Place(head);
  }

  // ---------------------------------------------------------------- what is handed out then

  /** The magic word at the bytes left over is torn apart, or it reaches across the reserved sector's blank bytes. */
  lemma EitherWay(crc: Checksum, s: Ring, next: Record, u: Ring)
    requires PutStep(crc, s, next, u) && HeadBlank(s) && !HasMagicRoom(s) && next.kind <= EVENT
    ensures !AcrossReserved(s) ==> Straddles(u.mem, s.meta.head)
    ensures AcrossReserved(s) ==> ReadRecord(crc, u.mem, s.meta.head) == Some(Found(next, DATA_START))
    ensures ReadRecord(crc, u.mem, NextSector(s.meta.head)) == Some(Found(next, NextSector(s.meta.head)))
  {
    var edge := NextEnters(crc, s, next, u);
    EdgePlace(s.meta.head, edge);
    SameReserved(u.mem, s.mem, s.meta.head);
    TornApart(crc, u.mem, s.meta.head, edge, next);
  }

  lemma TornApart(crc: Checksum, u: seq<byte>, h: nat, edge: nat, next: Record)
    requires |u| == DEVICE && DATA_START <= h < edge <= h + 3 && edge == (h / SECTOR + 1) * SECTOR <= REGION
    requires NextSector(h) == if edge == REGION then DATA_START else edge
    requires next.kind <= EVENT && NextSector(h) % SECTOR == 0 && NextSector(h) + SECTOR <= REGION
    requires DATA_START <= NextSector(h)
    requires forall i :: h <= i < edge ==> u[i] == 0xFF
    requires u[NextSector(h)..NextSector(h) + Size(next)] == Encode(crc, next)
    ensures var across := NextSector(h) == DATA_START && forall i :: REGION <= i < h + 4 ==> u[i] == 0xFF;
            && (!across ==> Straddles(u, h)) && (across ==> ReadRecord(crc, u, h) == Some(Found(next, DATA_START)))
    ensures ReadRecord(crc, u, NextSector(h)) == Some(Found(next, NextSector(h)))
  {
    RecordRoundTrip(crc, u, NextSector(h), next);
    AcrossEdge(crc, u, h, edge, next);
    if edge < REGION {
      MagicFirst(crc, u, NextSector(h), next);
      TornWord(u, h, edge);
    } else if i :| REGION <= i < h + 4 && u[i] != 0xFF {
      TornWord(u, h, i);
    }
  }

  lemma TornWord(u: seq<byte>, h: nat, i: nat)
    requires |u| == DEVICE && h + 4 <= DEVICE && u[h] == 0xFF && h <= i < h + 4 && u[i] != 0xFF
    ensures Straddles(u, h)
  {
    assert i == h + 1 || i == h + 2 || i == h + 3;
  }

  lemma LeftoverBytes(crc: Checksum, s: Ring, queue: seq<Record>, next: Record) returns (u: Ring)
    requires Keeps(crc, s, queue) && Bounded(s) && !HasMagicRoom(s) && next.kind <= EVENT
    ensures u == Put(crc, s, next) && |u.mem| == DEVICE
    ensures !AcrossReserved(s) ==> Straddles(u.mem, s.meta.head)
    ensures AcrossReserved(s) ==> ReadRecord(crc, u.mem, s.meta.head) == Some(Found(next, DATA_START))
    ensures ReadRecord(crc, u.mem, NextSector(s.meta.head)) == Some(Found(next, NextSector(s.meta.head)))
  {
    KeepsHeadBlank(crc, s, queue);
    u := PutSteps(crc, s, next);
    EitherWay(crc, s, next, u);
  }

  /** The ring after the put behind the bytes left over. */
  lemma LeftoverPut(crc: Checksum, s: Ring, queue: seq<Record>, next: Record)
    returns (k: nat, u: Ring, rest: seq<Item>, t: Pos, gap: Pos, more: seq<Item>, head: Pos)
    requires Keeps(crc, s, queue) && Bounded(s) && !HasMagicRoom(s) && next.kind <= EVENT
    requires s.meta.seqNo + |queue| + 1 < WORD
    ensures u == Put(crc, s, next) && k <= |queue| && (k > 0 ==> !Room(s, Size(next)))
    ensures u.meta.seqNo == s.meta.seqNo + k + 1 && s.meta.head == Place(gap)
    ensures RecordsOf(rest) == queue[k..] && RecordsOf(more) == [next] && head.off == Size(next)
    ensures Gapped(crc, u, rest, t, gap, more, head)
  {
    var items, tail;
    items, tail, gap := Opened(crc, s, queue);
    HoldingBounded(crc, s, items, tail, gap);
    PlaceFacts(gap);
    k, u, rest, t, more, head := PutBehind(crc, s, items, tail, gap, next);
  }

  lemma PutBehind(crc: Checksum, s: Ring, items: seq<Item>, tail: Pos, gap: Pos, next: Record)
    returns (k: nat, u: Ring, rest: seq<Item>, t: Pos, more: seq<Item>, head: Pos)
    requires Represents(crc, s, items, tail, gap) && gap.off > SECTOR - 4 && next.kind <= EVENT
    requires s.meta.seqNo + |items| + 1 < WORD
    ensures Bounded(s) && u == Put(crc, s, next) && k <= |items| && (k > 0 ==> !Room(s, Size(next)))
    ensures u.meta.seqNo == s.meta.seqNo + k + 1
    ensures RecordsOf(rest) == RecordsOf(items)[k..] && RecordsOf(more) == [next] && head.off == Size(next)
    ensures Gapped(crc, u, rest, t, gap, more, head)
  {
    var r;
    k, r, rest, t := MadeRoom(crc, s, items, tail, gap, Size(next));
    u, more, head := GapEnters(crc, r, rest, t, gap, next);
  }

  /** EDGE 2, EXACTLY.  When one to three bytes are left in the head's sector, a put drops a prefix at most, and the
      ring then counts the record but does not hand it out: everything before it is handed out, and then
      the lookup at the bytes left over fails and a drop is counted for no record.  The record itself is intact where
      that skip leaves the tail.  Only when the bytes left over are the device's last before a blank
      reserved sector is the record handed out too. */
  lemma LeftoverDelivers(crc: Checksum, s: Ring, queue: seq<Record>, next: Record) returns (k: nat, u: Ring)
    requires Keeps(crc, s, queue) && Bounded(s) && !HasMagicRoom(s) && next.kind <= EVENT
    requires s.meta.seqNo + |queue| + 1 < WORD
    ensures u == Put(crc, s, next) && k <= |queue| && (k > 0 ==> !Room(s, Size(next)))
    ensures |u.mem| == DEVICE && u.meta.count == |queue| - k + 1
    ensures HandsOut(crc, u) == queue[k..] + if AcrossReserved(s) then [next] else []
    ensures !AcrossReserved(s) ==>
              var skipped := AfterRecord(u.mem, s.meta.head);
              && ReadRecord(crc, u.mem, s.meta.head) == None && skipped == NextSector(s.meta.head)
              && ReadRecord(crc, u.mem, skipped) == Some(Found(next, skipped))
  {
    var rest, t, gap, more, head;
    k, u, rest, t, gap, more, head := LeftoverPut(crc, s, queue, next);
    var v := LeftoverBytes(crc, s, queue, next);
    GapCount(crc, u, rest, t, gap, more, head);
    if AcrossReserved(s) {
      AcrossDelivers(crc, u, rest, t, gap, more, head, next);
    } else {
      GapDelivers(crc, u, rest, t, gap, more, head, []);
      GapNext(crc, u.mem, gap);
      PlaceFacts(gap);
    }
  }

  lemma AcrossDelivers(crc: Checksum, u: Ring, rest: seq<Item>, t: Pos, gap: Pos, more: seq<Item>, head: Pos,
                       next: Record)
    requires Gapped(crc, u, rest, t, gap, more, head) && |more| == 1 && Looks(crc, u.mem, Place(gap), next)
    ensures HandsOut(crc, u) == RecordsOf(rest) + [next]
  {
    HandsOutIs(crc, u);
    ChainReads(crc, u.mem, rest, t, gap);
    OneDelivered(crc, u.mem, Place(gap), 1, next);
    DeliveredPrefix(crc, u.mem, u.meta.tail, |rest|, RecordsOf(rest), Place(gap), 1, [next], u.meta.count,
                    HandsOut(crc, u));
  }

  lemma OneDelivered(crc: Checksum, mem: seq<byte>, t: nat, n: nat, x: Record)
    requires n == 1 && Looks(crc, mem, t, x)
    ensures [x] == Delivered(crc, mem, t, n)
  {
    assert Delivered(crc, mem, AfterRecord(mem, t), n - 1) == [];
  }

  /** The records put, one operation each. */
  function Puts(recs: seq<Record>): (ops: seq<Op>)
    ensures |ops| == |recs|
  {
    seq(|recs|, i requires 0 <= i < |recs| => PutOp(recs[i]))
  }

  function Total(recs: seq<Record>): (n: nat)
    ensures recs != [] ==> n == Size(recs[0]) + Total(recs[1..])
  {
    if recs == [] then 0 else Size(recs[0]) + Total(recs[1..])
  }

  predicate Known(recs: seq<Record>) {
    forall i :: 0 <= i < |recs| ==> recs[i].kind <= EVENT
  }

  lemma {:induction false} FirstOfPuts(crc: Checksum, s: Ring, recs: seq<Record>)
    returns (first: Record, rest: seq<Record>, v: Ring)
    requires Bounded(s) && recs != [] && Known(recs)
    ensures recs == [first] + rest && first == recs[0] && first.kind <= EVENT && Known(rest)
    ensures Total(recs) == Size(first) + Total(rest)
    ensures v == Put(crc, s, first) && Run(crc, s, Puts(recs)) == Run(crc, v, Puts(rest))
  {
    first, rest, v := recs[0], recs[1..], Put(crc, s, recs[0]);
    assert Puts(recs)[0] == PutOp(first) && Puts(recs)[1..] == Puts(rest);
  }

  lemma OneRecordMore(more: seq<Item>, it: Item, all: seq<Record>, rest: seq<Record>, recs: seq<Record>)
    requires all == RecordsOf(more + [it]) + rest && recs == [it.rec] + rest
    ensures all == RecordsOf(more) + recs
  {
    assert RecordsOf(more + [it]) == RecordsOf(more) + [it.rec];
  }

  lemma {:induction false} GapRun(crc: Checksum, s: Ring, items: seq<Item>, tail: Pos, gap: Pos, more: seq<Item>,
                                  head: Pos, recs: seq<Record>)
    returns (u: Ring, more': seq<Item>, head': Pos)
    requires Gapped(crc, s, items, tail, gap, more, head) && Straddles(s.mem, Place(gap)) && Known(recs)
    requires head.off + Total(recs) < SECTOR && s.meta.seqNo + |recs| < WORD
    ensures u == Run(crc, s, Puts(recs)) && RecordsOf(more') == RecordsOf(more) + recs
    ensures Gapped(crc, u, items, tail, gap, more', head') && Straddles(u.mem, Place(gap))
    decreases |recs|
  {
    if recs == [] {
      u, more', head' := s, more, head;
    } else {
      var first, rest, v := FirstOfPuts(crc, s, recs);
      u, more', head' := GapRunStep(crc, s, items, tail, gap, more, head, recs, first, rest, v);
    }
  }

  lemma {:induction false} GapRunStep(crc: Checksum, s: Ring, items: seq<Item>, tail: Pos, gap: Pos, more: seq<Item>,
                                      head: Pos, recs: seq<Record>, first: Record, rest: seq<Record>, v: Ring)
    returns (u: Ring, more': seq<Item>, head': Pos)
    requires Gapped(crc, s, items, tail, gap, more, head) && Straddles(s.mem, Place(gap)) && v == Put(crc, s, first)
    requires recs == [first] + rest && first.kind <= EVENT && Known(rest)
    requires head.off + Size(first) + Total(rest) < SECTOR && s.meta.seqNo + |recs| < WORD
    ensures u == Run(crc, v, Puts(rest)) && RecordsOf(more') == RecordsOf(more) + recs
    ensures Gapped(crc, u, items, tail, gap, more', head') && Straddles(u.mem, Place(gap))
    decreases |recs|, 0
  {
    var v', more1, head1 := GapPut(crc, s, items, tail, gap, more, head, first);
    u, more', head' := GapRun(crc, v, items, tail, gap, more1, head1, rest);
    OneRecordMore(more, Item(head, first), RecordsOf(more'), rest, recs);
  }

  /** AND IT LAGS.  As long as the records put behind the bytes left over stay in that sector, the ring hands out all
      but the newest of them, one less than it counts. */
  lemma {:induction false} LeftoverLags(crc: Checksum, s: Ring, queue: seq<Record>, recs: seq<Record>)
    returns (k: nat, u: Ring)
    requires Keeps(crc, s, queue) && Bounded(s) && !HasMagicRoom(s) && !AcrossReserved(s)
    requires recs != [] && Known(recs) && Total(recs) < SECTOR && s.meta.seqNo + |queue| + |recs| < WORD
    ensures u == Run(crc, s, Puts(recs)) && k <= |queue| && (k > 0 ==> !Room(s, Size(recs[0])))
    ensures Bounded(u) && u.meta.count == |queue| - k + |recs|
    ensures HandsOut(crc, u) == queue[k..] + recs[..|recs| - 1]
  {
    var first, after, v := FirstOfPuts(crc, s, recs);
    k, u := LagsBehind(crc, s, queue, recs, first, after, v, recs[..|recs| - 1]);
  }

  lemma {:induction false} LagsBehind(crc: Checksum, s: Ring, queue: seq<Record>, recs: seq<Record>, first: Record,
                                      after: seq<Record>, v: Ring, last: seq<Record>)
    returns (k: nat, u: Ring)
    requires Keeps(crc, s, queue) && Bounded(s) && !HasMagicRoom(s) && !AcrossReserved(s)
    requires recs == [first] + after && first.kind <= EVENT && Known(after) && v == Put(crc, s, first)
    requires Size(first) + Total(after) < SECTOR && s.meta.seqNo + |queue| + |recs| < WORD && last == recs[..|recs| - 1]
    ensures Bounded(v) && u == Run(crc, v, Puts(after)) && k <= |queue| && (k > 0 ==> !Room(s, Size(first)))
    ensures Bounded(u) && u.meta.count == |queue| - k + |recs|
    ensures HandsOut(crc, u) == queue[k..] + last
  {
    var v', rest, t, gap, more, head;
    k, v', rest, t, gap, more, head := LeftoverPut(crc, s, queue, first);
    v' := LeftoverBytes(crc, s, queue, first);
    u, more, head := GapRun(crc, v, rest, t, gap, more, head, after);
    GapDelivers(crc, u, rest, t, gap, more, head, last);
  }
}

/** Geometry of the external NOR flash and the byte layout of the record ring in it
    (qspi_buffer.c, qspi_buffer.h).

    The ring is reasoned about in virtual addresses that never wrap: the code's tail and head
    are the places of two growing numbers.  Records live between them, at most 253 sectors
    apart, so distinct live bytes have distinct places. */
module QspiLayout {
  import opened Words
  import opened Records

  const SECTOR: nat := 262144
  const DATA_SECTORS: nat := 253
  const DATA_START: nat := 524288                 // sectors 0 and 1 hold the journal
  const REGION: nat := 66846720                   // 255 sectors owned by the buffer
  const DEVICE: nat := 67108864                   // sector 255 belongs to the self-test
  const RECORD_MAGIC: u32 := 0x5245_4344
  const BLANK_WORD: u32 := 0xFFFF_FFFF

  // ---------------------------------------------------------------- the NOR device

  /** Programming can only clear bits. */
  function Programmed(mem: seq<byte>, a: nat, data: seq<byte>): (m: seq<byte>)
    requires a + |data| <= |mem|
    ensures |m| == |mem|
    ensures forall i :: 0 <= i < |mem| && !(a <= i < a + |data|) ==> m[i] == mem[i]
    ensures forall i :: a <= i < a + |data| ==> m[i] == BitAnd(mem[i], data[i - a])
  {
    seq(|mem|, i requires 0 <= i < |mem| =>
      if a <= i < a + |data| then ProgrammedByte(mem[i], data[i - a]) else mem[i])
  }

  function ProgrammedByte(was: byte, b: byte): (r: byte)
    ensures r == BitAnd(was, b)
  {
    AndBelow(was, b);
    BitAnd(was, b)
  }

  /** Only an erase sets bits. */
  function Erased(mem: seq<byte>, a: nat, n: nat): (m: seq<byte>)
    requires a + n <= |mem|
    ensures |m| == |mem|
    ensures forall i :: 0 <= i < |mem| ==> m[i] == if a <= i < a + n then 0xFF else mem[i]
  {
    seq(|mem|, i requires 0 <= i < |mem| => if a <= i < a + n then 0xFF else mem[i])
  }

  ghost predicate SameOutside(m: seq<byte>, mem: seq<byte>, a: nat, n: nat) {
    && |m| == |mem|
    && forall i :: 0 <= i < |mem| && !(a <= i < a + n) ==> m[i] == mem[i]
  }

  ghost predicate BlankRange(mem: seq<byte>, a: nat, n: nat)
    requires a + n <= |mem|
  {
    forall i :: a <= i < a + n ==> mem[i] == 0xFF
  }

  lemma AndBlank(b: byte)
    ensures BitAnd(0xFF, b) == b
  {
    assert Pow2(8) == 0x100;
    AndOnes(b, 8);
  }

  /** Bytes equal one by one are an equal slice. */
  lemma SliceIs(mem: seq<byte>, a: nat, data: seq<byte>)
    requires a + |data| <= |mem| && forall i :: 0 <= i < |data| ==> mem[a + i] == data[i]
    ensures mem[a..a + |data|] == data
  {
  }

  /** On blank flash, programming stores exactly what was asked for. */
  lemma ProgramBlank(mem: seq<byte>, a: nat, data: seq<byte>)
    requires a + |data| <= |mem| && BlankRange(mem, a, |data|)
    ensures Programmed(mem, a, data)[a..a + |data|] == data
  {
    var m := Programmed(mem, a, data);
    forall i | 0 <= i < |data| ensures m[a + i] == data[i] {
      ProgrammedOnBlank(mem, a, data, i);
    }
    SliceIs(m, a, data);
  }

  lemma ProgrammedOnBlank(mem: seq<byte>, a: nat, data: seq<byte>, i: nat)
    requires a + |data| <= |mem| && i < |data| && mem[a + i] == 0xFF
    ensures Programmed(mem, a, data)[a + i] == data[i]
  {
    AndBlank(data[i]);
  }

  // ---------------------------------------------------------------- places

  /** A position that never wraps: the sec-th sector entered since the ring was empty, and the
      offset in it. */
  datatype Pos = Pos(sec: nat, off: nat)

  predicate Before(p: Pos, q: Pos) {
    p.sec < q.sec || (p.sec == q.sec && p.off <= q.off)
  }

  /** Where a position lives in the device. */
  function Place(p: Pos): (a: nat)
  {
    (2 + p.sec % DATA_SECTORS) * SECTOR + p.off
  }

  /** The code's step to the next sector, wrapping to the first data sector. */
  function NextSector(a: nat): nat {
    var next := (a / SECTOR + 1) * SECTOR;
    if next >= REGION then DATA_START else next
  }

  function NextPos(p: Pos): Pos {
    Pos(p.sec + 1, 0)
  }

  lemma PlaceFacts(p: Pos)
    requires p.off < SECTOR
    ensures DATA_START <= Place(p) && Place(p) - p.off + SECTOR <= REGION
    ensures Place(p) / SECTOR == 2 + p.sec % DATA_SECTORS
    ensures Place(p) % SECTOR == p.off
    ensures NextSector(Place(p)) == Place(NextPos(p))
  {
  }

  /** Within a window of 253 sectors, different sectors have different places. */
  lemma PlaceInjective(p: nat, q: nat)
    requires p < q <= p + 252
    ensures p % DATA_SECTORS != q % DATA_SECTORS
  {
  }

  // ---------------------------------------------------------------- records on flash

  /** Bytes a record takes: header, payload, CRC-32. */
  function Size(r: Record): nat {
    HEADER + PayloadLen(r.kind) + 4
  }

  function Encode(crc: Checksum, r: Record): (b: seq<byte>)
    ensures |b| == Size(r)
  {
    var body := Header(RECORD_MAGIC, r) + r.payload;
    body + Le32(crc(body))
  }

  /** read_record_header: where the record looked up at `t` really starts. */
  function ReadHeader(mem: seq<byte>, t: nat): (r: Option<nat>)
    requires |mem| == DEVICE
    ensures r.Some? ==> DATA_START <= r.value < REGION && mem[r.value + 6] <= EVENT
    ensures r.Some? ==> U16At(mem, r.value + 4) == PayloadLen(mem[r.value + 6])
    ensures r.Some? ==> r.value % SECTOR + HEADER + U16At(mem, r.value + 4) + 4 <= SECTOR
  {
    if t < DATA_START || t >= REGION then None
    else
      var s := if U32At(mem, t) == BLANK_WORD then NextSector(t) else t;
      if U32At(mem, s) != RECORD_MAGIC then None
      else
        var kind, len := mem[s + 6], U16At(mem, s + 4);
        if kind > EVENT then None
        else if len > MAX_PAYLOAD then None
        else if len != PayloadLen(kind) then None
        else if s % SECTOR + HEADER + len + 4 > SECTOR then None
        else Some(s)
  }

  datatype Found = Found(rec: Record, start: nat)

  /** What qspi_buffer_peek returns when the tail is at `t`; None when it finds corruption. */
  function ReadRecord(crc: Checksum, mem: seq<byte>, t: nat): (r: Option<Found>)
    requires |mem| == DEVICE
  {
    match ReadHeader(mem, t)
    case None => None
    case Some(s) =>
      var len := U16At(mem, s + 4);
      if crc(mem[s..s + HEADER + len]) != U32At(mem, s + HEADER + len) then None
      else Some(Found(Record(mem[s + 6], U32At(mem, s + 8), U32At(mem, s + 12), mem[s + HEADER..s + HEADER + len]), s))
  }

  function Wrap(a: nat): nat {
    if a >= REGION then DATA_START else a
  }

  /** Where consuming the record looked up at `t` leaves the tail. */
  function AfterRecord(mem: seq<byte>, t: nat): (r: nat)
    requires |mem| == DEVICE
    ensures DATA_START <= t < REGION ==> DATA_START <= r < REGION
  {
    match ReadHeader(mem, t)
    case None => Wrap((t / SECTOR + 1) * SECTOR)
    case Some(s) => Wrap(s + HEADER + U16At(mem, s + 4) + 4)
  }

  /** The `n` records a reader finds one after another from `t`. */
  function ReadChain(crc: Checksum, mem: seq<byte>, t: nat, n: nat): (r: Option<seq<Record>>)
    requires |mem| == DEVICE
    decreases n, t
  {
    if n == 0 then Some([])
    else
      match ReadRecord(crc, mem, t)
      case None => None
      case Some(found) =>
        match ReadChain(crc, mem, AfterRecord(mem, t), n - 1)
        case None => None
        case Some(rest) => Some([found.rec] + rest)
  }

  /** Where such a reader ends up. */
  function ReaderEnd(mem: seq<byte>, t: nat, n: nat): nat
    requires |mem| == DEVICE
    decreases n, t
  {
    if n == 0 then t else ReaderEnd(mem, AfterRecord(mem, t), n - 1)
  }

  // ---------------------------------------------------------------- live records

  datatype Item = Item(at: Pos, rec: Record)

  /** Where the next record may be: behind this one, or at the next sector when this one fills its own. */
  function End(it: Item): Pos {
    var off := it.at.off + Size(it.rec);
    if off == SECTOR then Pos(it.at.sec + 1, 0) else Pos(it.at.sec, off)
  }

  lemma EndPlace(it: Item)
    requires it.at.off + Size(it.rec) <= SECTOR
    ensures Place(End(it)) == Wrap(Place(it.at) + Size(it.rec)) && End(it).off < SECTOR
  {
    PlaceFacts(it.at);
  }

  function RecordsOf(items: seq<Item>): (rs: seq<Record>)
    ensures |rs| == |items| && forall i :: 0 <= i < |items| ==> rs[i] == items[i].rec
  {
    seq(|items|, i requires 0 <= i < |items| => items[i].rec)
  }

  /** There is room for one magic word in the sector. */
  ghost predicate LeavesMagicRoom(p: Pos) {
    p.off <= SECTOR - 4
  }

  ghost predicate BytesAt(mem: seq<byte>, p: Pos, data: seq<byte>) {
    && 0 <= Place(p) && Place(p) + |data| <= |mem|
    && mem[Place(p)..Place(p) + |data|] == data
  }

  ghost predicate Stored(crc: Checksum, mem: seq<byte>, it: Item) {
    && it.rec.kind <= EVENT
    && it.at.off + Size(it.rec) <= SECTOR
    && BytesAt(mem, it.at, Encode(crc, it.rec))
  }

  ghost predicate Padded(mem: seq<byte>, p: Pos) {
    0 < p.off && LeavesMagicRoom(p) && BytesAt(mem, p, [0xFF, 0xFF, 0xFF, 0xFF])
  }

  /** A record looked up at `from` starts there, or behind padding at the next sector. */
  ghost predicate Linked(mem: seq<byte>, from: Pos, at: Pos) {
    at == from || (at == NextPos(from) && Padded(mem, from))
  }

  /** The records of the ring, oldest first, from tail to head. */
  ghost predicate Chain(crc: Checksum, mem: seq<byte>, items: seq<Item>, tail: Pos, head: Pos)
    decreases |items|
  {
    && tail.off < SECTOR
    && if items == [] then tail == head
       else Stored(crc, mem, items[0]) && Linked(mem, tail, items[0].at)
            && Chain(crc, mem, items[1..], End(items[0]), head)
  }

  /** The ring never spans more than one lap. */
  predicate Spans(tail: Pos, head: Pos) {
    && tail.sec <= head.sec
    && (head.sec < tail.sec + DATA_SECTORS || (head.sec == tail.sec + DATA_SECTORS && head.off <= tail.off))
  }

  ghost predicate Live(crc: Checksum, mem: seq<byte>, items: seq<Item>, tail: Pos, head: Pos) {
    && |mem| == DEVICE
    && Spans(tail, head)
    && Chain(crc, mem, items, tail, head)
  }

  ghost predicate SameBetween(mem: seq<byte>, mem': seq<byte>, tail: Pos, head: Pos) {
    && |mem| == |mem'|
    && forall p: Pos :: Before(tail, p) && Before(p, head) && p != head && p.off < SECTOR && Place(p) < |mem| ==>
         mem'[Place(p)] == mem[Place(p)]
  }

  lemma {:induction false} ChainGrows(crc: Checksum, mem: seq<byte>, items: seq<Item>, tail: Pos, head: Pos)
    requires Chain(crc, mem, items, tail, head)
    ensures Before(tail, head) && head.off < SECTOR
    decreases |items|
  {
    if items != [] {
      ChainGrows(crc, mem, items[1..], End(items[0]), head);
    }
  }

  lemma BytesFrame(mem: seq<byte>, mem': seq<byte>, tail: Pos, head: Pos, p: Pos, data: seq<byte>)
    requires SameBetween(mem, mem', tail, head) && BytesAt(mem, p, data)
    requires Before(tail, p) && p.off + |data| <= SECTOR && Before(Pos(p.sec, p.off + |data|), head)
    ensures BytesAt(mem', p, data)
  {
    var a, n := Place(p), |data|;
    var old_, new_ := mem[a..a + n], mem'[a..a + n];
    forall k | 0 <= k < n ensures old_[k] == new_[k] {
      var q := Pos(p.sec, p.off + k);
      assert Place(q) == a + k;
    }
    assert old_ == new_;
  }

  /** Live records survive any change that leaves the bytes between tail and head alone. */
  lemma {:induction false} ChainFrame(crc: Checksum, mem: seq<byte>, mem': seq<byte>, items: seq<Item>,
                                      tail: Pos, head: Pos, from: Pos)
    requires Chain(crc, mem, items, from, head) && SameBetween(mem, mem', tail, head) && Before(tail, from)
    ensures Chain(crc, mem', items, from, head)
    decreases |items|
  {
    if items != [] {
      var it := items[0];
      ChainGrows(crc, mem, items[1..], End(it), head);
      BytesFrame(mem, mem', tail, head, it.at, Encode(crc, it.rec));
      if it.at != from {
        BytesFrame(mem, mem', tail, head, from, [0xFF, 0xFF, 0xFF, 0xFF]);
      }
      ChainFrame(crc, mem, mem', items[1..], tail, head, End(it));
    }
  }

  lemma {:induction false} ChainAppend(crc: Checksum, mem: seq<byte>, items: seq<Item>, tail: Pos, head: Pos, it: Item)
    requires Chain(crc, mem, items, tail, head)
    requires Stored(crc, mem, it) && Linked(mem, head, it.at)
    ensures Chain(crc, mem, items + [it], tail, End(it))
    decreases |items|
  {
    var all := items + [it];
    if items == [] {
      assert all[1..] == [];
    } else {
      ChainAppend(crc, mem, items[1..], End(items[0]), head, it);
      assert all[1..] == items[1..] + [it];
    }
  }

  // ---------------------------------------------------------------- reading live records back

  /** The parts of a stored record: header, payload, checksum. */
  lemma RecordParts(crc: Checksum, mem: seq<byte>, s: nat, r: Record) returns (body: seq<byte>)
    requires s + Size(r) <= |mem| && mem[s..s + Size(r)] == Encode(crc, r)
    ensures body == Header(RECORD_MAGIC, r) + r.payload
    ensures mem[s..s + HEADER] == Header(RECORD_MAGIC, r)
    ensures var e := s + HEADER + PayloadLen(r.kind);
            mem[s + HEADER..e] == r.payload && mem[s..e] == body && mem[e..e + 4] == Le32(crc(body))
  {
    var len, n := PayloadLen(r.kind), Size(r);
    body := Header(RECORD_MAGIC, r) + r.payload;
    SubSlice(mem, s, n, 0, HEADER);
    SubSlice(mem, s, n, HEADER, HEADER + len);
    SubSlice(mem, s, n, 0, HEADER + len);
    SubSlice(mem, s, n, HEADER + len, n);
    assert Encode(crc, r)[0..HEADER] == Header(RECORD_MAGIC, r);
    assert Encode(crc, r)[HEADER..HEADER + len] == r.payload;
    assert Encode(crc, r)[0..HEADER + len] == body;
    assert Encode(crc, r)[HEADER + len..n] == Le32(crc(body));
  }

  lemma RecordRoundTrip(crc: Checksum, mem: seq<byte>, s: nat, r: Record)
    requires |mem| == DEVICE && DATA_START <= s < REGION
    requires r.kind <= EVENT && s % SECTOR + Size(r) <= SECTOR
    requires mem[s..s + Size(r)] == Encode(crc, r)
    ensures ReadHeader(mem, s) == Some(s)
    ensures ReadRecord(crc, mem, s) == Some(Found(r, s))
  {
    var body := RecordParts(crc, mem, s, r);
    HeaderRoundTrip(mem, s, RECORD_MAGIC, r);
    HeaderFound(mem, s, r);
    Le32RoundTrip(mem, s + HEADER + PayloadLen(r.kind), crc(body));
    BodyFound(crc, mem, s, r, body);
  }

  lemma HeaderFound(mem: seq<byte>, s: nat, r: Record)
    requires |mem| == DEVICE && DATA_START <= s < REGION && r.kind <= EVENT && s % SECTOR + Size(r) <= SECTOR
    requires U32At(mem, s) == RECORD_MAGIC && U16At(mem, s + 4) == PayloadLen(r.kind) && mem[s + 6] == r.kind
    ensures ReadHeader(mem, s) == Some(s)
  {
  }

  lemma BodyFound(crc: Checksum, mem: seq<byte>, s: nat, r: Record, body: seq<byte>)
    requires |mem| == DEVICE && ReadHeader(mem, s) == Some(s) && U16At(mem, s + 4) == PayloadLen(r.kind)
    requires mem[s + 6] == r.kind && U32At(mem, s + 8) == r.originMs && U32At(mem, s + 12) == r.bootGen
    requires var e := s + HEADER + PayloadLen(r.kind);
             e + 4 <= |mem| && mem[s + HEADER..e] == r.payload && mem[s..e] == body && U32At(mem, e) == crc(body)
    ensures ReadRecord(crc, mem, s) == Some(Found(r, s))
  {
  }

  lemma BlankMagic(mem: seq<byte>, p: Pos)
    requires |mem| == DEVICE && Padded(mem, p)
    ensures Place(p) + 4 <= |mem| && U32At(mem, Place(p)) == BLANK_WORD
  {
    var a := Place(p);
    var m := mem[a..a + 4];
    assert m[0] == mem[a] && m[1] == mem[a + 1] && m[2] == mem[a + 2] && m[3] == mem[a + 3];
    BlankWord(mem, a);
  }

  lemma HeaderAcrossPadding(mem: seq<byte>, t: nat, s: nat)
    requires |mem| == DEVICE && DATA_START <= t < REGION && s == NextSector(t)
    requires U32At(mem, t) == BLANK_WORD && ReadHeader(mem, s) == Some(s)
    ensures ReadHeader(mem, t) == Some(s)
  {
  }

  /** Looking the oldest record up at the tail finds it, across padding if need be. */
  lemma ReadOldest(crc: Checksum, mem: seq<byte>, items: seq<Item>, tail: Pos, head: Pos)
    requires |mem| == DEVICE && Chain(crc, mem, items, tail, head) && items != []
    ensures ReadRecord(crc, mem, Place(tail)) == Some(Found(items[0].rec, Place(items[0].at)))
    ensures AfterRecord(mem, Place(tail)) == Place(End(items[0]))
  {
    var it := items[0];
    PlaceFacts(tail);
    PlaceFacts(it.at);
    RecordRoundTrip(crc, mem, Place(it.at), it.rec);
    if it.at != tail {
      BlankMagic(mem, tail);
      HeaderAcrossPadding(mem, Place(tail), Place(it.at));
    }
    FoundFromHeader(crc, mem, Place(tail), Place(it.at), it.rec);
    EndPlace(it);
  }

  lemma FoundFromHeader(crc: Checksum, mem: seq<byte>, t: nat, s: nat, r: Record)
    requires |mem| == DEVICE && ReadHeader(mem, t) == Some(s) && ReadHeader(mem, s) == Some(s)
    requires ReadRecord(crc, mem, s) == Some(Found(r, s))
    ensures ReadRecord(crc, mem, t) == Some(Found(r, s))
    ensures AfterRecord(mem, t) == Wrap(s + Size(r))
  {
  }

  /** REFINEMENT.  Following headers and padding from the tail, a reader finds exactly the live
      records, oldest first, and ends at the head. */
  lemma {:induction false} ChainReads(crc: Checksum, mem: seq<byte>, items: seq<Item>, tail: Pos, head: Pos)
    requires |mem| == DEVICE && Chain(crc, mem, items, tail, head)
    ensures ReadChain(crc, mem, Place(tail), |items|) == Some(RecordsOf(items))
    ensures ReaderEnd(mem, Place(tail), |items|) == Place(head)
    decreases |items|
  {
    if items == [] {
      assert RecordsOf(items) == [];
    } else {
      ReadOldest(crc, mem, items, tail, head);
      ChainReads(crc, mem, items[1..], End(items[0]), head);
      FirstRead(crc, mem, items, Place(tail), Place(End(items[0])));
    }
  }

  lemma FirstRead(crc: Checksum, mem: seq<byte>, items: seq<Item>, t: nat, t': nat)
    requires |mem| == DEVICE && items != [] && ReadRecord(crc, mem, t) == Some(Found(items[0].rec, Place(items[0].at)))
    requires AfterRecord(mem, t) == t' && ReadChain(crc, mem, t', |items[1..]|) == Some(RecordsOf(items[1..]))
    ensures ReadChain(crc, mem, t, |items|) == Some(RecordsOf(items))
    ensures ReaderEnd(mem, t, |items|) == ReaderEnd(mem, t', |items[1..]|)
  {
    RecordsFirst(items);
    OneMore(crc, mem, t, t', |items|, RecordsOf(items), RecordsOf(items[1..]));
  }

  /** One record more, where the reader has got to. */
  lemma {:induction false} ReadOneMore(crc: Checksum, mem: seq<byte>, t: nat, n: nat, q: seq<Record>)
    requires |mem| == DEVICE && ReadChain(crc, mem, t, n) == Some(q)
    ensures ReadChain(crc, mem, t, n + 1)
            == match ReadRecord(crc, mem, ReaderEnd(mem, t, n))
               case None => None
               case Some(found) => Some(q + [found.rec])
    decreases n
  {
    if n == 0 {
      OneRecord(crc, mem, t);
    } else {
      ReadOneMore(crc, mem, AfterRecord(mem, t), n - 1, q[1..]);
      FirstAgain(crc, mem, t, n, q);
    }
  }

  lemma OneRecord(crc: Checksum, mem: seq<byte>, t: nat)
    requires |mem| == DEVICE
    ensures ReadChain(crc, mem, t, 1)
            == match ReadRecord(crc, mem, t)
               case None => None
               case Some(found) => Some([] + [found.rec])
  {
    match ReadRecord(crc, mem, t) {
      case None =>
      case Some(found) =>
        assert ReadChain(crc, mem, AfterRecord(mem, t), 0) == Some([]);
        EmptySides(found.rec);
    }
  }

  lemma EmptySides(x: Record)
    ensures [x] + [] == [x] == [] + [x]
  {
  }

  lemma FirstAgain(crc: Checksum, mem: seq<byte>, t: nat, n: nat, q: seq<Record>)
    requires |mem| == DEVICE && n > 0 && ReadChain(crc, mem, t, n) == Some(q) && q != []
    ensures ReadChain(crc, mem, t, n + 1)
            == match ReadChain(crc, mem, AfterRecord(mem, t), n)
               case None => None
               case Some(rest) => Some([q[0]] + rest)
    ensures forall x: Record :: [q[0]] + (q[1..] + [x]) == q + [x]
  {
  }

  lemma RecordsFirst(items: seq<Item>)
    requires items != []
    ensures RecordsOf(items) == [items[0].rec] + RecordsOf(items[1..])
  {
  }

  lemma OneMore(crc: Checksum, mem: seq<byte>, t: nat, t': nat, n: nat, all: seq<Record>, rest: seq<Record>)
    requires |mem| == DEVICE && n > 0 && ReadRecord(crc, mem, t).Some? && AfterRecord(mem, t) == t'
    requires ReadChain(crc, mem, t', n - 1) == Some(rest) && all == [ReadRecord(crc, mem, t).value.rec] + rest
    ensures ReadChain(crc, mem, t, n) == Some(all) && ReaderEnd(mem, t, n) == ReaderEnd(mem, t', n - 1)
  {
  }

  // ---------------------------------------------------------------- room for one more

  /** Nothing has been programmed between the head and the end of its sector. */
  ghost predicate Fresh(mem: seq<byte>, head: Pos) {
    && |mem| == DEVICE && head.off <= SECTOR
    && Place(head) + (SECTOR - head.off) <= |mem|
    && BlankRange(mem, Place(head), SECTOR - head.off)
  }

  function RoomAvailable(count: u32, h: nat, t: nat, req: nat): bool {
    if count == 0 then true
    else if h % SECTOR + req > SECTOR then
      var h' := NextSector(h);
      if h' / SECTOR == t / SECTOR then false
      else h' / SECTOR == t / SECTOR && h' < t ==> h' + req <= t
    else h / SECTOR == t / SECTOR && h < t ==> h + req <= t
  }

  /** Where a put of `req` bytes writes. */
  function Target(h: nat, req: nat): nat {
    if h % SECTOR + req > SECTOR then NextSector(h) else h
  }

  function TargetPos(head: Pos, req: nat): Pos {
    if head.off + req > SECTOR then NextPos(head) else head
  }

  lemma TargetPlace(head: Pos, req: nat)
    requires head.off < SECTOR
    ensures Target(Place(head), req) == Place(TargetPos(head, req))
  {
    PlaceFacts(head);
  }

  /** Positions at most one lap apart are in the same sector of the device when they are in the same
      sector, or exactly one lap apart. */
  lemma SameSector(p: Pos, q: Pos)
    requires p.off < SECTOR && q.off < SECTOR && p.sec <= q.sec <= p.sec + DATA_SECTORS
    ensures Place(p) / SECTOR == Place(q) / SECTOR <==> (p.sec == q.sec || q.sec == p.sec + DATA_SECTORS)
  {
    PlaceFacts(p);
    PlaceFacts(q);
    if p.sec < q.sec < p.sec + DATA_SECTORS {
      PlaceInjective(p.sec, q.sec);
    }
  }

  /** ROOM.  Over live records there is room exactly when the put does not have to erase the
      tail's sector, and head never trails tail inside one sector. */
  lemma RoomMeans(count: u32, tail: Pos, head: Pos, req: nat)
    requires tail.off < SECTOR && head.off < SECTOR && Before(tail, head) && head.sec <= tail.sec + 252
    requires 0 < req <= SECTOR
    ensures RoomAvailable(count, Place(head), Place(tail), req)
            <==> count == 0 || TargetPos(head, req).sec <= tail.sec + 252
    ensures Place(head) / SECTOR == Place(tail) / SECTOR ==> Place(tail) <= Place(head)
    ensures Target(Place(head), req) == Place(TargetPos(head, req))
  {
    TargetPlace(head, req);
    SameSector(tail, head);
    SameSector(tail, NextPos(head));
    PlaceFacts(head);
  }

  /** A range that holds no live byte: at most a lap from the tail, and behind the head. */
  predicate Clear(tail: Pos, head: Pos, q: Pos, n: nat) {
    && Before(head, q) && q.off + n <= SECTOR
    && (q.sec < tail.sec + DATA_SECTORS || (q.sec == tail.sec + DATA_SECTORS && q.off + n <= tail.off))
  }

  lemma OutsideLive(mem: seq<byte>, m: seq<byte>, tail: Pos, head: Pos, q: Pos, n: nat)
    requires |mem| == DEVICE && SameOutside(m, mem, Place(q), n)
    requires Before(tail, head) && Clear(tail, head, q, n)
    ensures SameBetween(mem, m, tail, head)
  {
    forall p: Pos | Before(tail, p) && Before(p, head) && p != head && p.off < SECTOR && Place(p) < |mem|
      ensures m[Place(p)] == mem[Place(p)]
    {
      if p.sec < q.sec < p.sec + DATA_SECTORS {
        PlaceInjective(p.sec, q.sec);
      }
      assert !(Place(q) <= Place(p) < Place(q) + n);
    }
  }

  /** Disjoint records of at least 40 bytes bound how many there can be. */
  lemma {:induction false} ChainRoom(crc: Checksum, mem: seq<byte>, items: seq<Item>, tail: Pos, head: Pos)
    requires Chain(crc, mem, items, tail, head)
    ensures 40 * |items| + tail.sec * SECTOR + tail.off <= head.sec * SECTOR + head.off
    decreases |items|
  {
    if items != [] {
      ChainRoom(crc, mem, items[1..], End(items[0]), head);
    }
  }

  /** A record stored behind the live ones is appended. */
  lemma StoredAppends(crc: Checksum, mem: seq<byte>, m: seq<byte>, items: seq<Item>, tail: Pos, head: Pos, it: Item)
    requires Live(crc, mem, items, tail, head) && it.rec.kind <= EVENT
    requires it.at == head || (it.at == NextPos(head) && Padded(mem, head))
    requires Clear(tail, head, it.at, Size(it.rec)) && SameOutside(m, mem, Place(it.at), Size(it.rec))
    requires BytesAt(m, it.at, Encode(crc, it.rec))
    ensures Live(crc, m, items + [it], tail, End(it))
  {
    ChainGrows(crc, mem, items, tail, head);
    OutsideLive(mem, m, tail, head, it.at, Size(it.rec));
    ChainFrame(crc, mem, m, items, tail, head, tail);
    if it.at != head {
      PaddingKept(mem, m, head, it.at, Size(it.rec));
    }
    ChainAppend(crc, m, items, tail, head, it);
  }

  /** Writing a record behind the live ones, on blank flash, appends it and leaves the rest of its sector
      blank. */
  lemma PutAppends(crc: Checksum, mem: seq<byte>, items: seq<Item>, tail: Pos, head: Pos, r: Record, q: Pos)
    requires Live(crc, mem, items, tail, head) && r.kind <= EVENT
    requires q == head || (q == NextPos(head) && Padded(mem, head))
    requires Clear(tail, head, q, Size(r)) && Fresh(mem, q)
    ensures var m := Programmed(mem, Place(q), Encode(crc, r));
            var it := Item(q, r);
            Live(crc, m, items + [it], tail, End(it)) && (q.off + Size(r) < SECTOR ==> Fresh(m, End(it)))
  {
    var data := Encode(crc, r);
    ProgramBlank(mem, Place(q), data);
    StoredAppends(crc, mem, Programmed(mem, Place(q), data), items, tail, head, Item(q, r));
    FreshBehind(mem, q, data);
  }

  lemma FreshBehind(mem: seq<byte>, q: Pos, data: seq<byte>)
    requires Fresh(mem, q) && q.off + |data| <= SECTOR
    ensures Fresh(Programmed(mem, Place(q), data), Pos(q.sec, q.off + |data|))
  {
  }

  lemma PaddingKept(mem: seq<byte>, m: seq<byte>, head: Pos, q: Pos, n: nat)
    requires |mem| == DEVICE && SameOutside(m, mem, Place(q), n) && q == NextPos(head) && n <= SECTOR
    requires Padded(mem, head)
    ensures Padded(m, head)
  {
    PlaceInjective(head.sec, q.sec);
    var a := Place(head);
    assert m[a..a + 4] == mem[a..a + 4];
  }

  /** Entering a sector: erasing it leaves live records and the padding alone. */
  lemma EraseKeeps(crc: Checksum, mem: seq<byte>, items: seq<Item>, tail: Pos, head: Pos)
    requires Live(crc, mem, items, tail, head) && Fresh(mem, head) && head.sec + 1 <= tail.sec + 252
    requires 0 < head.off && LeavesMagicRoom(head)
    ensures var m := Erased(mem, Place(NextPos(head)), SECTOR);
            Live(crc, m, items, tail, head) && Fresh(m, NextPos(head)) && Padded(m, head)
  {
    var q := NextPos(head);
    var m := Erased(mem, Place(q), SECTOR);
    ChainGrows(crc, mem, items, tail, head);
    OutsideLive(mem, m, tail, head, q, SECTOR);
    ChainFrame(crc, mem, m, items, tail, head, tail);
    FreshPads(mem, head);
    PaddingKept(mem, m, head, q, SECTOR);
  }

  lemma FreshPads(mem: seq<byte>, p: Pos)
    requires Fresh(mem, p) && 0 < p.off && LeavesMagicRoom(p)
    ensures Padded(mem, p)
  {
    SliceIs(mem, Place(p), [0xFF, 0xFF, 0xFF, 0xFF]);
  }
}

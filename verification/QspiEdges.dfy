/** The two places where the record ring of qspi_buffer.c does not keep what it stores: a put that fills
    its sector exactly, and one that leaves one to three bytes in it. */
module QspiEdges {
  import opened Words
  import opened Records
  import opened QspiLayout
  import opened QspiJournal
  import opened QspiBuffer

  /** The journal and the records are kept apart. */
  lemma JournaledData(crc: Checksum, s: Ring, e: Entry)
    requires Bounded(s) && Placed(e)
    ensures forall i :: DATA_START <= i < DEVICE ==> Journaled(crc, s, e).mem[i] == s.mem[i]
  {
  }

  /** The drop loop changes no record. */
  lemma {:induction false} MakeRoomData(crc: Checksum, s: Ring, req: nat)
    requires Bounded(s)
    ensures forall i :: DATA_START <= i < DEVICE ==> MakeRoom(crc, s, req).mem[i] == s.mem[i]
    decreases s.meta.count
  {
    if !Room(s, req) {
      JournaledData(crc, s, ConsumedEntry(s));
      MakeRoomData(crc, Consumed(crc, s), req);
    }
  }

  /** Data bytes after programming `data` at `t`, in a sector that was erased before or not. */
  ghost predicate Wrote(m: seq<byte>, mem: seq<byte>, t: nat, data: seq<byte>, erased: bool) {
    && |m| == |mem| == DEVICE
    && (forall i :: DATA_START <= i < DEVICE && !(t <= i < t + if erased then SECTOR else |data|) ==> m[i] == mem[i])
    && (forall i :: DATA_START <= i < DEVICE && t <= i < t + |data| ==>
          m[i] == BitAnd(if erased then 0xFF else mem[i], data[i - t]))
    && (erased ==> forall i :: DATA_START <= i < DEVICE && t + |data| <= i < t + SECTOR ==> m[i] == 0xFF)
  }

  predicate Enters(s: Ring, req: nat) {
    s.meta.head % SECTOR + req > SECTOR
  }

  /** What a put does to the head and to the data sectors, whatever the tail and the count. */
  ghost predicate PutStep(crc: Checksum, s: Ring, rec: Record, r: Ring) {
    && Bounded(s) && Bounded(r)
    && r.meta.head == Wrap(Target(s.meta.head, Size(rec)) + Size(rec))
    && Wrote(r.mem, s.mem, Target(s.meta.head, Size(rec)), Encode(crc, rec), Enters(s, Size(rec)))
  }

  /** Erasing, programming and journaling, as seen by the data sectors. */
  lemma WroteSteps(m: seq<byte>, mem: seq<byte>, w: seq<byte>, x: seq<byte>, t: nat, data: seq<byte>, erased: bool)
    requires |m| == |mem| == |x| == DEVICE && t + SECTOR <= DEVICE && |data| <= SECTOR
    requires forall i :: DATA_START <= i < DEVICE ==> m[i] == mem[i]
    requires w == Programmed(if erased then Erased(m, t, SECTOR) else m, t, data)
    requires forall i :: DATA_START <= i < DEVICE ==> x[i] == w[i]
    ensures Wrote(x, mem, t, data, erased)
  {
  }

  lemma PutSteps(crc: Checksum, s: Ring, rec: Record) returns (r: Ring)
    requires Bounded(s)
    ensures r == Put(crc, s, rec) && PutStep(crc, s, rec, r)
  {
    var req := Size(rec);
    MakeRoomData(crc, s, req);
    var m := MakeRoom(crc, s, req);
    r := RestSteps(crc, m, rec);
    WroteOver(r.mem, m.mem, s.mem, Target(s.meta.head, req), Encode(crc, rec), Enters(s, req));
  }

  lemma RestSteps(crc: Checksum, m: Ring, rec: Record) returns (r: Ring)
    requires Bounded(m)
    ensures r == PutRest(crc, m, rec) && PutStep(crc, m, rec, r)
  {
    var req := Size(rec);
    var w := Written(crc, Entered(m, req), rec);
    JournaledData(crc, w, PutEntry(w, req));
    r := Journaled(crc, w, PutEntry(w, req));
    TargetIn(m.meta.head, req);
    var t := Target(m.meta.head, req);
    WroteSteps(m.mem, m.mem, w.mem, r.mem, t, Encode(crc, rec), Enters(m, req));
  }

  lemma WroteOver(x: seq<byte>, m: seq<byte>, mem: seq<byte>, t: nat, data: seq<byte>, erased: bool)
    requires Wrote(x, m, t, data, erased) && |mem| == DEVICE
    requires forall i :: DATA_START <= i < DEVICE ==> m[i] == mem[i]
    ensures Wrote(x, mem, t, data, erased)
  {
  }

  /** The rest of the head's sector is blank: an erase blanks the whole sector and records are
      written from its start. */
  predicate HeadBlank(s: Ring)
    requires Bounded(s)
  {
    forall i :: s.meta.head <= i < (s.meta.head / SECTOR + 1) * SECTOR ==> i < DEVICE && s.mem[i] == 0xFF
  }

  lemma KeepsHeadBlank(crc: Checksum, s: Ring, queue: seq<Record>)
    requires Keeps(crc, s, queue)
    ensures Bounded(s) && HeadBlank(s)
  {
    var items, tail, head := Opened(crc, s, queue);
    HoldingBounded(crc, s, items, tail, head);
    PlaceFacts(head);
  }

  /** Bytes left in the sector behind a record that is put. */
  function Leftover(s: Ring, rec: Record): int {
    SECTOR - (Target(s.meta.head, Size(rec)) % SECTOR + Size(rec))
  }

  lemma TargetIn(h: nat, req: nat)
    requires DATA_START <= h < REGION && 0 < req < SECTOR
    ensures var t := Target(h, req);
            DATA_START <= t < REGION && t % SECTOR + req <= SECTOR && t - t % SECTOR + SECTOR <= REGION
    ensures Target(h, req) / SECTOR * SECTOR == Target(h, req) - Target(h, req) % SECTOR
    ensures h % SECTOR + req > SECTOR ==> Target(h, req) % SECTOR == 0
  {
  }

  /** Behind a put the rest of the sector stays blank, and with bytes left there the head does not wrap. */
  lemma LeftoverBlank(crc: Checksum, s: Ring, rec: Record, r: Ring)
    requires PutStep(crc, s, rec, r) && HeadBlank(s) && 0 < Leftover(s, rec)
    ensures r.meta.head == Target(s.meta.head, Size(rec)) + Size(rec) && HeadBlank(r)
    ensures r.meta.head % SECTOR == SECTOR - Leftover(s, rec)
  {
    var h, z := s.meta.head, Size(rec);
    var t := Target(h, z);
    TargetIn(h, z);
    SameSectorEnd(t, z);
    BlankBehind(r.mem, s.mem, t, Encode(crc, rec), Enters(s, z), (t / SECTOR + 1) * SECTOR);
  }

  lemma BlankBehind(m: seq<byte>, mem: seq<byte>, t: nat, data: seq<byte>, erased: bool, edge: nat)
    requires Wrote(m, mem, t, data, erased) && DATA_START <= t && t + |data| <= edge <= DEVICE && edge <= t + SECTOR
    requires !erased ==> forall i :: t <= i < edge ==> mem[i] == 0xFF
    ensures forall i :: t + |data| <= i < edge ==> m[i] == 0xFF
  {
  }

  lemma SameSectorEnd(t: nat, z: nat)
    requires t % SECTOR + z < SECTOR
    ensures (t + z) / SECTOR == t / SECTOR && (t + z) % SECTOR == t % SECTOR + z
    ensures (t / SECTOR + 1) * SECTOR == t - t % SECTOR + SECTOR
  {
    assert t + z == t / SECTOR * SECTOR + (t % SECTOR + z);
  }

  lemma FirstByte(crc: Checksum, rec: Record)
    ensures Encode(crc, rec)[0] == RECORD_MAGIC % 0x100
  {
    var h := Header(RECORD_MAGIC, rec);
    assert Encode(crc, rec)[0] == h[0] == Le32(RECORD_MAGIC)[0];
  }

  /** A put from a head with a few bytes left in its sector enters the next sector and is programmed onto what the
      erase left; the bytes left over, and those of the reserved sector, stay as they are. */
  lemma NextEnters(crc: Checksum, r: Ring, next: Record, u: Ring) returns (edge: nat)
    requires PutStep(crc, r, next, u) && HeadBlank(r) && r.meta.head % SECTOR >= SECTOR - 3
    ensures var h := r.meta.head;
            && edge == (h / SECTOR + 1) * SECTOR && DATA_START <= h < edge <= h + 3 && edge <= REGION
            && (forall i :: h <= i < edge ==> u.mem[i] == 0xFF)
            && NextSector(h) % SECTOR == 0 && DATA_START <= NextSector(h) && NextSector(h) + SECTOR <= REGION
            && u.mem[NextSector(h)..NextSector(h) + Size(next)] == Encode(crc, next)
    ensures forall i :: REGION <= i < DEVICE ==> u.mem[i] == r.mem[i]
  {
    var h := r.meta.head;
    edge := (h / SECTOR + 1) * SECTOR;
    EdgePlace(h, edge);
    assert Target(h, Size(next)) == NextSector(h) && Enters(r, Size(next));
    StoredOnErased(u.mem, r.mem, NextSector(h), Encode(crc, next));
  }

  lemma EdgePlace(h: nat, edge: nat)
    requires DATA_START <= h < REGION && h % SECTOR >= SECTOR - 3 && edge == (h / SECTOR + 1) * SECTOR
    ensures h < edge <= h + 3 && edge <= REGION
    ensures NextSector(h) == if edge == REGION then DATA_START else edge
    ensures NextSector(h) % SECTOR == 0 && NextSector(h) + SECTOR <= REGION
  {
  }

  /** A record programmed into a sector just erased is there. */
  lemma StoredOnErased(m: seq<byte>, mem: seq<byte>, t: nat, data: seq<byte>)
    requires Wrote(m, mem, t, data, true) && DATA_START <= t && t + |data| <= DEVICE
    ensures m[t..t + |data|] == data
  {
    forall i | 0 <= i < |data| ensures m[t + i] == data[i] {
      AndBlank(data[i]);
      assert m[t + i] == BitAnd(0xFF, data[t + i - t]);
    }
    SliceIs(m, t, data);
  }

  /** Looked up at `h`, a few blank bytes before a sector in which a record was just stored. */
  lemma AcrossEdge(crc: Checksum, u: seq<byte>, h: nat, edge: nat, next: Record)
    requires |u| == DEVICE && DATA_START <= h < edge <= h + 3 && edge == (h / SECTOR + 1) * SECTOR <= REGION
    requires next.kind <= EVENT && NextSector(h) % SECTOR == 0 && NextSector(h) + Size(next) <= REGION
    requires forall i :: h <= i < edge ==> u[i] == 0xFF
    requires u[NextSector(h)..NextSector(h) + Size(next)] == Encode(crc, next)
    ensures var found := edge == REGION && forall i :: REGION <= i < h + 4 ==> u[i] == 0xFF;
            && (ReadHeader(u, h) == None <==> !found)
            && (found ==> ReadRecord(crc, u, h) == Some(Found(next, DATA_START)))
  {
    var t := NextSector(h);
    assert u[h] == 0xFF;
    if edge < REGION {
      FirstByte(crc, next);
      assert u[t] == u[t..t + Size(next)][0] != 0xFF;
      MixedMagicUnreadable(u, h, edge - h);
    } else if i :| REGION <= i < h + 4 && u[i] != 0xFF {
      MixedMagicUnreadable(u, h, i - h);
    } else {
      BlankWord(u, h);
      RecordRoundTrip(crc, u, t, next);
      HeaderAcrossPadding(u, h, t);
      FoundFromHeader(crc, u, h, t, next);
    }
  }

  lemma SameReserved(u: seq<byte>, mem: seq<byte>, h: nat)
    requires |u| == |mem| == DEVICE && h + 4 <= DEVICE && forall i :: REGION <= i < DEVICE ==> u[i] == mem[i]
    ensures (forall i :: REGION <= i < h + 4 ==> u[i] == 0xFF) <==> (forall i :: REGION <= i < h + 4 ==> mem[i] == 0xFF)
  {
    if forall i :: REGION <= i < h + 4 ==> u[i] == 0xFF {
      forall i | REGION <= i < h + 4 ensures mem[i] == 0xFF {
        assert u[i] == mem[i];
      }
    }
  }

  lemma LeftoverReads(crc: Checksum, s: Ring, rec: Record, r: Ring, next: Record, u: Ring)
    requires PutStep(crc, s, rec, r) && PutStep(crc, r, next, u)
    requires HeadBlank(s) && 1 <= Leftover(s, rec) <= 3 && next.kind <= EVENT
    ensures var h := r.meta.head;
            var found := NextSector(h) == DATA_START && forall i :: REGION <= i < h + 4 ==> s.mem[i] == 0xFF;
            && (ReadHeader(u.mem, h) == None <==> !found)
            && (found ==> ReadRecord(crc, u.mem, h) == Some(Found(next, DATA_START)))
  {
    LeftoverBlank(crc, s, rec, r);
    var edge := NextEnters(crc, r, next, u);
    EdgePlace(r.meta.head, edge);
    ReservedKept(crc, s, rec, r);
    SameReserved(u.mem, s.mem, r.meta.head);
    AcrossEdge(crc, u.mem, r.meta.head, edge, next);
  }

  lemma ReservedKept(crc: Checksum, s: Ring, rec: Record, r: Ring)
    requires PutStep(crc, s, rec, r)
    ensures forall i :: REGION <= i < DEVICE ==> r.mem[i] == s.mem[i]
  {
    TargetIn(s.meta.head, Size(rec));
  }

  /** EDGE 2, THE LOOKUP.  After a put that leaves one to three bytes in its sector, the magic word looked up there
      straddles the sector's end.  The lookup there does not find the record put next, whatever it is,
      unless the sector was the last one and the bytes of the reserved sector behind it that the
      magic word reaches are blank. */
  lemma LeftoverReadsExactly(crc: Checksum, s: Ring, rec: Record, next: Record) returns (r: Ring, u: Ring)
    requires Bounded(s) && HeadBlank(s) && 1 <= Leftover(s, rec) <= 3 && next.kind <= EVENT
    ensures r == Put(crc, s, rec) && u == Put(crc, r, next) && |u.mem| == DEVICE && r.meta.head + 4 <= DEVICE
    ensures var h := r.meta.head;
            var found := NextSector(h) == DATA_START && forall i :: REGION <= i < h + 4 ==> s.mem[i] == 0xFF;
            && (ReadHeader(u.mem, h) == None <==> !found)
            && (found ==> ReadRecord(crc, u.mem, h) == Some(Found(next, DATA_START)))
  {
    r := PutSteps(crc, s, rec);
    u := PutSteps(crc, r, next);
    LeftoverReads(crc, s, rec, r, next, u);
  }

  // ---------------------------------------------------------------- a sector filled exactly

  /** A record is read back exactly when its bytes are all there. */
  lemma ReadBackExactly(crc: Checksum, mem: seq<byte>, a: nat, r: Record)
    requires |mem| == DEVICE && DATA_START <= a < REGION && a % SECTOR + Size(r) <= SECTOR && r.kind <= EVENT
    requires a + Size(r) <= |mem| && mem[a + 7] == 0
    ensures ReadRecord(crc, mem, a) == Some(Found(r, a)) <==> mem[a..a + Size(r)] == Encode(crc, r)
  {
    if mem[a..a + Size(r)] == Encode(crc, r) {
      RecordRoundTrip(crc, mem, a, r);
    }
    if ReadRecord(crc, mem, a) == Some(Found(r, a)) {
      FoundBytes(crc, mem, a, r);
    }
  }

  lemma FoundFields(crc: Checksum, mem: seq<byte>, a: nat, r: Record)
    requires |mem| == DEVICE && a + Size(r) <= |mem| && r.kind <= EVENT
    requires ReadRecord(crc, mem, a) == Some(Found(r, a))
    ensures var e := a + HEADER + PayloadLen(r.kind);
            && U32At(mem, a) == RECORD_MAGIC && U16At(mem, a + 4) == PayloadLen(r.kind) && mem[a + 6] == r.kind
            && U32At(mem, a + 8) == r.originMs && U32At(mem, a + 12) == r.bootGen
            && mem[a + HEADER..e] == r.payload && U32At(mem, e) == crc(mem[a..e])
  {
  }

  lemma Header16(mem: seq<byte>, a: nat, r: Record)
    requires a + HEADER <= |mem| && mem[a..a + 4] == Le32(RECORD_MAGIC) && mem[a + 4..a + 6] == Le16(PayloadLen(r.kind))
    requires mem[a + 6] == r.kind && mem[a + 7] == 0
    requires mem[a + 8..a + 12] == Le32(r.originMs) && mem[a + 12..a + 16] == Le32(r.bootGen)
    ensures mem[a..a + HEADER] == Header(RECORD_MAGIC, r)
  {
    var pieces := mem[a..a + 4]
        + (mem[a + 4..a + 6] + ([mem[a + 6], mem[a + 7]] + (mem[a + 8..a + 12] + mem[a + 12..a + 16])));
    assert mem[a..a + HEADER] == pieces;
  }

  lemma FoundBytes(crc: Checksum, mem: seq<byte>, a: nat, r: Record)
    requires |mem| == DEVICE && a + Size(r) <= |mem| && r.kind <= EVENT && mem[a + 7] == 0
    requires ReadRecord(crc, mem, a) == Some(Found(r, a))
    ensures mem[a..a + Size(r)] == Encode(crc, r)
  {
    FoundFields(crc, mem, a, r);
    var e := a + HEADER + PayloadLen(r.kind);
    NumberOnly(mem, a, 4);
    NumberOnly(mem, a + 4, 2);
    NumberOnly(mem, a + 8, 4);
    NumberOnly(mem, a + 12, 4);
    NumberOnly(mem, e, 4);
    Header16(mem, a, r);
    assert mem[a..e] == mem[a..a + HEADER] + mem[a + HEADER..e];
    assert mem[a..a + Size(r)] == mem[a..e] + mem[e..e + 4];
  }

  /** The new record needs no bit that the old one cleared. */
  predicate Covers(crc: Checksum, was: Record, now: Record) {
    && was.kind == now.kind && Clears(was.payload, now.payload)
    && BitAnd(was.originMs, now.originMs) == now.originMs
    && BitAnd(was.bootGen, now.bootGen) == now.bootGen
    && BitAnd(Sum(crc, was), Sum(crc, now)) == Sum(crc, now)
  }

  /** The checksum stored with a record. */
  function Sum(crc: Checksum, r: Record): u32 {
    crc(Header(RECORD_MAGIC, r) + r.payload)
  }

  lemma ClearsSelf(b: seq<byte>)
    ensures Clears(b, b)
  {
    forall i | 0 <= i < |b| ensures BitAnd(b[i], b[i]) == b[i] {
      AndSelf(b[i]);
    }
  }

  lemma ClearsHeader(was: Record, now: Record)
    requires was.kind == now.kind
    ensures Clears(Header(RECORD_MAGIC, was), Header(RECORD_MAGIC, now))
            <==> BitAnd(was.originMs, now.originMs) == now.originMs && BitAnd(was.bootGen, now.bootGen) == now.bootGen
  {
    var magic, len, kind := Le32(RECORD_MAGIC), Le16(PayloadLen(now.kind)), [now.kind, 0];
    var ms, gen, ms', gen' := Le32(was.originMs), Le32(was.bootGen), Le32(now.originMs), Le32(now.bootGen);
    ClearsSelf(magic);
    ClearsSelf(len);
    ClearsSelf(kind);
    ClearsWord(was.originMs, now.originMs);
    ClearsWord(was.bootGen, now.bootGen);
    ClearsAppend(ms, gen, ms', gen');
    ClearsAppend(kind, ms + gen, kind, ms' + gen');
    ClearsAppend(len, kind + (ms + gen), len, kind + (ms' + gen'));
    ClearsAppend(magic, len + (kind + (ms + gen)), magic, len + (kind + (ms' + gen')));
  }

  lemma ClearsRecord(crc: Checksum, was: Record, now: Record)
    requires was.kind == now.kind
    ensures Clears(Encode(crc, was), Encode(crc, now)) <==> Covers(crc, was, now)
  {
    var h, h' := Header(RECORD_MAGIC, was), Header(RECORD_MAGIC, now);
    ClearsHeader(was, now);
    ClearsAppend(h, was.payload, h', now.payload);
    ClearsWord(Sum(crc, was), Sum(crc, now));
    ClearsAppend(h + was.payload, Le32(Sum(crc, was)), h' + now.payload, Le32(Sum(crc, now)));
  }

  /** The length byte or the kind byte of a record of another kind is spoiled. */
  lemma OtherKindSpoils(was: byte, now: byte)
    requires was <= EVENT && now <= EVENT && was != now
    ensures BitAnd(was, now) != now || BitAnd(PayloadLen(was), PayloadLen(now)) != PayloadLen(now)
  {
    if now != TELEMETRY {
      assert BitAnd(0, 1) == 0 && BitAnd(0, 2) == 0;
      assert BitAnd(1, 2) == 0 && BitAnd(2, 1) == 0;
    } else if was == STATUS {
      AndBelow(20, 55);
    } else {
      assert BitAnd(59, 55) == 1 + 2 * BitAnd(29, 27) && BitAnd(29, 27) == 1 + 2 * BitAnd(14, 13);
      assert BitAnd(14, 13) == 2 * BitAnd(7, 6);
    }
  }

  lemma KindBytes(crc: Checksum, r: Record)
    requires r.kind <= EVENT
    ensures Encode(crc, r)[4] == PayloadLen(r.kind) && Encode(crc, r)[6] == r.kind && Encode(crc, r)[7] == 0
  {
    var h := Header(RECORD_MAGIC, r);
    assert Encode(crc, r)[4] == h[4] == Le16(PayloadLen(r.kind))[0];
    assert Encode(crc, r)[6] == h[6] && Encode(crc, r)[7] == h[7];
  }

  lemma FillPlace(h: nat, z: nat)
    requires DATA_START <= h < REGION && 0 < z < SECTOR && Target(h, z) % SECTOR + z == SECTOR
    ensures var w := Wrap(Target(h, z) + z); w % SECTOR == 0 && DATA_START <= w && w + SECTOR <= REGION
  {
    TargetIn(h, z);
  }

  /** `data` programmed at `h` over what was there. */
  ghost predicate Blended(m: seq<byte>, mem: seq<byte>, h: nat, data: seq<byte>) {
    && |m| == |mem| == DEVICE && DATA_START <= h && h % SECTOR == 0 && h + SECTOR <= REGION && |data| < SECTOR
    && forall i :: h <= i < h + |data| ==> m[i] == BitAnd(mem[i], data[i - h])
  }

  /** The record put after an exact fill is programmed over what the next sector held. */
  lemma AfterExactFill(crc: Checksum, s: Ring, rec: Record, r: Ring, next: Record, u: Ring)
    requires PutStep(crc, s, rec, r) && PutStep(crc, r, next, u) && Leftover(s, rec) == 0
    ensures Blended(u.mem, r.mem, r.meta.head, Encode(crc, next))
  {
    FillPlace(s.meta.head, Size(rec));
    assert Wrote(u.mem, r.mem, r.meta.head, Encode(crc, next), false);
  }

  /** EDGE 1, THE LOOKUP ON A BLANK SECTOR.  A put that fills its sector makes the next one skip the erase.  Where
      the next sector is still blank the record is looked up all the same. */
  lemma ExactFillOnBlank(crc: Checksum, s: Ring, rec: Record, next: Record) returns (r: Ring, u: Ring)
    requires Bounded(s) && Leftover(s, rec) == 0 && next.kind <= EVENT
    ensures r == Put(crc, s, rec) && u == Put(crc, r, next) && |u.mem| == |r.mem| == DEVICE
    ensures var h := r.meta.head;
            && h % SECTOR == 0 && h + SECTOR <= DEVICE
            && (BlankRange(r.mem, h, Size(next)) ==> ReadRecord(crc, u.mem, h) == Some(Found(next, h)))
  {
    r := PutSteps(crc, s, rec);
    u := PutSteps(crc, r, next);
    AfterExactFill(crc, s, rec, r, next, u);
    StoredOnBlank(crc, r.mem, u.mem, r.meta.head, next);
  }

  lemma StoredOnBlank(crc: Checksum, was: seq<byte>, mem: seq<byte>, h: nat, next: Record)
    requires Blended(mem, was, h, Encode(crc, next)) && next.kind <= EVENT
    ensures BlankRange(was, h, Size(next)) ==> ReadRecord(crc, mem, h) == Some(Found(next, h))
  {
    var n := Encode(crc, next);
    if BlankRange(was, h, Size(next)) {
      forall i | 0 <= i < Size(next) ensures mem[h + i] == n[i] {
        AndBlank(n[i]);
        assert mem[h + i] == BitAnd(was[h + i], n[h + i - h]);
      }
      SliceIs(mem, h, n);
      RecordRoundTrip(crc, mem, h, next);
    }
  }

  /** EDGE 1, THE LOOKUP OVER AN OLD RECORD.  Where the next sector still begins with a record, the next one is
      read back if and only if it is of the same kind and every bit set in its time, boot generation,
      payload and checksum is set in the old record's. */
  lemma ExactFillOverOld(crc: Checksum, s: Ring, rec: Record, was: Record, next: Record) returns (r: Ring, u: Ring)
    requires Bounded(s) && Leftover(s, rec) == 0 && was.kind <= EVENT && next.kind <= EVENT
    ensures r == Put(crc, s, rec) && u == Put(crc, r, next) && |u.mem| == |r.mem| == DEVICE
    ensures var h := r.meta.head;
            && h % SECTOR == 0 && h + SECTOR <= DEVICE
            && (r.mem[h..h + Size(was)] == Encode(crc, was) ==>
                  (ReadRecord(crc, u.mem, h) == Some(Found(next, h)) <==> Covers(crc, was, next)))
  {
    r := PutSteps(crc, s, rec);
    u := PutSteps(crc, r, next);
    FillOverOld(crc, s, rec, r, was, next, u);
  }

  lemma FillOverOld(crc: Checksum, s: Ring, rec: Record, r: Ring, was: Record, next: Record, u: Ring)
    requires PutStep(crc, s, rec, r) && PutStep(crc, r, next, u) && Leftover(s, rec) == 0
    requires was.kind <= EVENT && next.kind <= EVENT
    ensures var h := r.meta.head;
            && h % SECTOR == 0 && h + SECTOR <= DEVICE
            && (r.mem[h..h + Size(was)] == Encode(crc, was) ==>
                  (ReadRecord(crc, u.mem, h) == Some(Found(next, h)) <==> Covers(crc, was, next)))
  {
    AfterExactFill(crc, s, rec, r, next, u);
    StoredOver(crc, r.mem, u.mem, r.meta.head, was, next);
  }

  lemma StoredOver(crc: Checksum, mem: seq<byte>, m: seq<byte>, h: nat, was: Record, next: Record)
    requires Blended(m, mem, h, Encode(crc, next)) && was.kind <= EVENT && next.kind <= EVENT
    ensures mem[h..h + Size(was)] == Encode(crc, was) ==>
              (ReadRecord(crc, m, h) == Some(Found(next, h)) <==> Covers(crc, was, next))
  {
    var w, n := Encode(crc, was), Encode(crc, next);
    if mem[h..h + Size(was)] == w {
      assert forall i :: 0 <= i < Size(was) ==> mem[h + i] == w[i];
      KindBytes(crc, was);
      KindBytes(crc, next);
      forall i | 0 <= i < Size(next) ensures m[h + i] == BitAnd(mem[h + i], n[i]) {
        assert m[h + i] == BitAnd(mem[h + i], n[h + i - h]);
      }
      ReadBackExactly(crc, m, h, next);
      if was.kind != next.kind {
        OtherKindSpoils(was.kind, next.kind);
        assert m[h..h + Size(next)][4] == m[h + 4] && m[h..h + Size(next)][6] == m[h + 6];
      } else {
        ClearsRecord(crc, was, next);
        KeptExactly(mem, m, h, w, n);
      }
    }
  }

  lemma KeptExactly(old_: seq<byte>, mem: seq<byte>, h: nat, w: seq<byte>, n: seq<byte>)
    requires |old_| == |mem| && |w| == |n| && h + |n| <= |mem|
    requires forall i :: 0 <= i < |w| ==> old_[h + i] == w[i]
    requires forall i :: 0 <= i < |n| ==> mem[h + i] == BitAnd(old_[h + i], n[i])
    ensures mem[h..h + |n|] == n <==> Clears(w, n)
  {
    var part := mem[h..h + |n|];
    assert forall i :: 0 <= i < |n| ==> part[i] == mem[h + i] == BitAnd(w[i], n[i]);
  }
}

/** The edges of QspiEdges are reached: runs of puts, from a reset ring on any device, that end one put short
    of them. */
module QspiReach {
  import opened Words
  import opened Records
  import opened QspiLayout
  import opened QspiJournal
  import opened QspiBuffer
  import opened QspiEdges
  import opened QspiFill
  import opened QspiDelivery

  /** The same record put `n` times. */
  function Repeat(rec: Record, n: nat): (ops: seq<Op>)
    ensures |ops| == n
  {
    seq(n, _ => PutOp(rec))
  }

  lemma RepeatFirst(rec: Record, n: nat)
    requires n > 0
    ensures Repeat(rec, n) == [PutOp(rec)] + Repeat(rec, n - 1)
    ensures Repeat(rec, n)[0] == PutOp(rec) && Repeat(rec, n)[1..] == Repeat(rec, n - 1)
  {
  }

  /** Data bytes are the same outside a range. */
  ghost predicate DataOutside(m: seq<byte>, mem: seq<byte>, a: nat, b: nat) {
    && |m| == |mem| == DEVICE
    && forall i :: DATA_START <= i < DEVICE && !(a <= i < b) ==> m[i] == mem[i]
  }

  lemma DataChain(m2: seq<byte>, m1: seq<byte>, m0: seq<byte>, a: nat, b: nat, c: nat)
    requires a <= b <= c && DataOutside(m1, m0, a, b) && DataOutside(m2, m1, b, c)
    ensures DataOutside(m2, m0, a, c)
  {
  }

  /** A change in a wider range, and then one inside it. */
  lemma DataWithin(m2: seq<byte>, m1: seq<byte>, m0: seq<byte>, a: nat, b: nat, a': nat, b': nat)
    requires DataOutside(m1, m0, a, b) && DataOutside(m2, m1, a', b') && a <= a' && b' <= b
    ensures DataOutside(m2, m0, a, b)
  {
  }

  lemma SliceKept(m: seq<byte>, mem: seq<byte>, a: nat, b: nat, c: nat, d: nat)
    requires DataOutside(m, mem, a, b) && DATA_START <= c <= d <= DEVICE && (d <= a || b <= c)
    ensures m[c..d] == mem[c..d]
  {
  }

  /** The first of several puts. */
  lemma FirstPut(crc: Checksum, s: Ring, rec: Record, n: nat)
    requires Bounded(s) && PayloadLen(rec.kind) != 0 && n > 0 && LeavesRoom(s, Size(rec))
    ensures Bounded(Put(crc, s, rec))
    ensures Run(crc, s, Repeat(rec, n)) == Run(crc, Put(crc, s, rec), Repeat(rec, n - 1))
    ensures AllLeaveRoom(crc, Put(crc, s, rec), Repeat(rec, n - 1)) ==> AllLeaveRoom(crc, s, Repeat(rec, n))
  {
    RepeatFirst(rec, n);
  }

  lemma Times(n: nat, z: nat)
    requires n > 0
    ensures n * z == z + (n - 1) * z && (n - 1) * z >= 0
  {
  }

  lemma InsideSector(h: nat, z: nat)
    requires DATA_START <= h < REGION && 0 < z && h % SECTOR + z < SECTOR
    ensures Target(h, z) == h && h + z < REGION && Wrap(h + z) == h + z
    ensures (h + z) % SECTOR == h % SECTOR + z
  {
    var q := h / SECTOR;
    assert h + z == q * SECTOR + (h % SECTOR + z);
  }

  lemma Offset(h: nat, sec: nat, off: nat)
    requires off < SECTOR && h == DATA_START + sec * SECTOR + off
    ensures h % SECTOR == off
  {
    assert h == (sec + 2) * SECTOR + off;
  }

  /** With the tail still where a reset put it, nothing was dropped: the tail is there still and the ring has `n`
      records more. */
  ghost predicate NoDrop(s: Ring, r: Ring, n: nat) {
    s.meta.tail == DATA_START && s.meta.count + n < WORD ==>
      r.meta.tail == DATA_START && r.meta.count == s.meta.count + n
  }

  lemma PutWithoutDrop(crc: Checksum, s: Ring, rec: Record)
    requires Bounded(s) && (s.meta.head % SECTOR + Size(rec) > SECTOR ==> NextSector(s.meta.head) / SECTOR != 2)
    ensures NoDrop(s, Put(crc, s, rec), 1)
    ensures s.meta.tail == DATA_START ==> Room(s, Size(rec))
  {
  }

  lemma NoDropThen(s: Ring, m: Ring, r: Ring, i: nat, j: nat)
    requires NoDrop(s, m, i) && NoDrop(m, r, j)
    ensures NoDrop(s, r, i + j)
  {
  }

  /** A put into the head's sector. */
  lemma PutInside(crc: Checksum, s: Ring, rec: Record) returns (r: Ring)
    requires Bounded(s) && PayloadLen(rec.kind) != 0 && s.meta.head % SECTOR + Size(rec) < SECTOR
    ensures r == Put(crc, s, rec) && Bounded(r) && r.meta.head == s.meta.head + Size(rec)
    ensures r.meta.head % SECTOR == s.meta.head % SECTOR + Size(rec)
    ensures DataOutside(r.mem, s.mem, s.meta.head, r.meta.head) && NoDrop(s, r, 1)
  {
    r := PutSteps(crc, s, rec);
    PutWithoutDrop(crc, s, rec);
    StepInside(crc, s, rec, r);
  }

  lemma StepInside(crc: Checksum, s: Ring, rec: Record, r: Ring)
    requires PutStep(crc, s, rec, r) && s.meta.head % SECTOR + Size(rec) < SECTOR
    ensures r.meta.head == s.meta.head + Size(rec) && r.meta.head % SECTOR == s.meta.head % SECTOR + Size(rec)
    ensures DataOutside(r.mem, s.mem, s.meta.head, r.meta.head)
  {
    InsideSector(s.meta.head, Size(rec));
  }

  /** Puts that stay in the head's sector. */
  lemma {:induction false} InsideRun(crc: Checksum, s: Ring, rec: Record, z: nat, n: nat) returns (r: Ring)
    requires Bounded(s) && PayloadLen(rec.kind) != 0 && z == Size(rec)
    requires s.meta.head % SECTOR + n * z <= SECTOR - 4
    ensures r == Run(crc, s, Repeat(rec, n)) && Bounded(r) && AllLeaveRoom(crc, s, Repeat(rec, n))
    ensures r.meta.head == s.meta.head + n * z && NoDrop(s, r, n)
    ensures DataOutside(r.mem, s.mem, s.meta.head, r.meta.head)
    decreases n
  {
    if n == 0 {
      r := s;
    } else {
      Times(n, z);
      FirstPut(crc, s, rec, n);
      var s' := PutInside(crc, s, rec);
      r := InsideRun(crc, s', rec, z, n - 1);
      DataChain(r.mem, s'.mem, s.mem, s.meta.head, s'.meta.head, r.meta.head);
    }
  }

  /** A put that enters the next sector stores its record at that sector's start. */
  lemma PutEntering(crc: Checksum, s: Ring, rec: Record) returns (t: nat, r: Ring)
    requires Bounded(s) && PayloadLen(rec.kind) != 0 && s.meta.head % SECTOR + Size(rec) > SECTOR
    ensures r == Put(crc, s, rec) && Bounded(r) && LeavesRoom(s, Size(rec))
    ensures t == NextSector(s.meta.head) && t % SECTOR == 0 && DATA_START <= t && t + SECTOR <= REGION
    ensures r.meta.head == t + Size(rec) && r.meta.head % SECTOR == Size(rec)
    ensures DataOutside(r.mem, s.mem, t, t + SECTOR) && r.mem[t..t + Size(rec)] == Encode(crc, rec)
    ensures t != DATA_START ==> NoDrop(s, r, 1)
  {
    r := PutSteps(crc, s, rec);
    t := StepEntering(crc, s, rec, r);
    if t != DATA_START {
      PutWithoutDrop(crc, s, rec);
    }
  }

  lemma StepEntering(crc: Checksum, s: Ring, rec: Record, r: Ring) returns (t: nat)
    requires PutStep(crc, s, rec, r) && s.meta.head % SECTOR + Size(rec) > SECTOR
    ensures t == NextSector(s.meta.head) && t % SECTOR == 0 && DATA_START <= t && t + SECTOR <= REGION
    ensures r.meta.head == t + Size(rec) && r.meta.head % SECTOR == Size(rec)
    ensures DataOutside(r.mem, s.mem, t, t + SECTOR) && r.mem[t..t + Size(rec)] == Encode(crc, rec)
  {
    t := NextSector(s.meta.head);
    TargetIn(s.meta.head, Size(rec));
    InsideSector(t, Size(rec));
    StoredOnErased(r.mem, s.mem, t, Encode(crc, rec));
  }

  /** Puts that enter the next sector and stay there. */
  lemma EnteringRun(crc: Checksum, s: Ring, rec: Record, z: nat, n: nat) returns (t: nat, r: Ring)
    requires Bounded(s) && PayloadLen(rec.kind) != 0 && z == Size(rec) && s.meta.head % SECTOR + z > SECTOR
    requires n > 0 && n * z <= SECTOR - 4
    ensures t == NextSector(s.meta.head) && t % SECTOR == 0 && DATA_START <= t && t + SECTOR <= REGION
    ensures r == Run(crc, s, Repeat(rec, n)) && Bounded(r) && AllLeaveRoom(crc, s, Repeat(rec, n))
    ensures r.meta.head == t + n * z
    ensures DataOutside(r.mem, s.mem, t, t + SECTOR) && r.mem[t..t + z] == Encode(crc, rec)
    ensures t != DATA_START ==> NoDrop(s, r, n)
  {
    Times(n, z);
    var s';
    t, s' := PutEntering(crc, s, rec);
    FirstPut(crc, s, rec, n);
    r := InsideRun(crc, s', rec, z, n - 1);
    EnteredRun(s, s', r, t, z, n, Encode(crc, rec));
  }

  lemma EnteredRun(s: Ring, s': Ring, r: Ring, t: nat, z: nat, n: nat, data: seq<byte>)
    requires DATA_START <= t && z <= SECTOR && t + SECTOR <= DEVICE && n > 0
    requires DataOutside(s'.mem, s.mem, t, t + SECTOR) && DataOutside(r.mem, s'.mem, s'.meta.head, r.meta.head)
    requires s'.meta.head == t + z && r.meta.head <= t + SECTOR && s'.mem[t..t + z] == data
    requires NoDrop(s', r, n - 1) && (t != DATA_START ==> NoDrop(s, s', 1))
    ensures DataOutside(r.mem, s.mem, t, t + SECTOR) && r.mem[t..t + z] == data
    ensures t != DATA_START ==> NoDrop(s, r, n)
  {
    SliceKept(r.mem, s'.mem, s'.meta.head, r.meta.head, t, t + z);
    DataWithin(r.mem, s'.mem, s.mem, t, t + SECTOR, s'.meta.head, r.meta.head);
    if t != DATA_START {
      NoDropThen(s, s', r, 1, n - 1);
    }
  }

  /** One run after another. */
  lemma {:induction false} RunsInTurn(crc: Checksum, s: Ring, xs: seq<Op>, ys: seq<Op>)
    requires Bounded(s) && AllLeaveRoom(crc, s, xs) && AllLeaveRoom(crc, Run(crc, s, xs), ys)
    ensures Run(crc, s, xs + ys) == Run(crc, Run(crc, s, xs), ys) && AllLeaveRoom(crc, s, xs + ys)
    decreases |xs|
  {
    if xs == [] {
      assert xs + ys == ys;
    } else {
      assert (xs + ys)[0] == xs[0] && (xs + ys)[1..] == xs[1..] + ys;
      RunsInTurn(crc, Apply(crc, s, xs[0]), xs[1..], ys);
    }
  }

  lemma {:induction false} PutsBound(ops: seq<Op>)
    ensures |PutsOf(ops)| <= |ops|
    decreases |ops|
  {
    if ops != [] {
      PutsBound(ops[1..]);
    }
  }

  /** What a run of puts from a reset ring leaves is a sound ring. */
  lemma Sound(crc: Checksum, mem: seq<byte>, ops: seq<Op>) returns (queue: seq<Record>)
    requires |mem| == DEVICE && AllLeaveRoom(crc, Reset(crc, mem), ops) && 2 * |ops| < WORD - 1
    ensures Keeps(crc, Run(crc, Reset(crc, mem), ops), queue) && HasMagicRoom(Run(crc, Reset(crc, mem), ops))
    ensures |queue| <= |ops| && Run(crc, Reset(crc, mem), ops).meta.seqNo <= 2 * |ops| + 1
    ensures Run(crc, Reset(crc, mem), ops).meta.count == |ops| ==> queue == PutsOf(ops)
  {
    ResetIsEmpty(crc, mem);
    var r;
    queue, r := SoundRun(crc, Reset(crc, mem), ops);
  }

  lemma SoundRun(crc: Checksum, s: Ring, ops: seq<Op>) returns (queue: seq<Record>, r: Ring)
    requires Keeps(crc, s, []) && HasMagicRoom(s) && Bounded(s) && AllLeaveRoom(crc, s, ops)
    requires s.meta.seqNo + 2 * |ops| < WORD
    ensures r == Run(crc, s, ops) && Keeps(crc, r, queue) && HasMagicRoom(r)
    ensures |queue| <= |ops| && r.meta.seqNo <= s.meta.seqNo + 2 * |ops|
    ensures r.meta.count == |ops| ==> queue == PutsOf(ops)
  {
    var j;
    j, r := RunRefines(crc, s, [], ops);
    PutsBound(ops);
    queue := ([] + PutsOf(ops))[j..];
    KeepsReads(crc, r, queue);
    RebootExact(crc, r, queue);
  }

  // ---------------------------------------------------------------- three bytes left over

  /** 3491 telemetry records and 4 event records leave three bytes of the first sector. */
  function ToLeftover(t: Record, e: Record): (ops: seq<Op>)
    ensures |ops| == 3494
  {
    Repeat(t, 3491) + Repeat(e, 3)
  }

  lemma ToLeftoverRun(crc: Checksum, mem: seq<byte>, t: Record, e: Record) returns (s: Ring)
    requires |mem| == DEVICE && t.kind == TELEMETRY && e.kind == EVENT
    ensures s == Run(crc, Reset(crc, mem), ToLeftover(t, e)) && Bounded(s) && s.meta.head == DATA_START + 262062
    ensures AllLeaveRoom(crc, Reset(crc, mem), ToLeftover(t, e))
    ensures s.meta.tail == DATA_START && s.meta.count == |ToLeftover(t, e)|
  {
    var s0 := Reset(crc, mem);
    Offset(s0.meta.head, 0, 0);
    var s1 := InsideRun(crc, s0, t, 75, 3491);
    Offset(s1.meta.head, 0, 261825);
    s := InsideRun(crc, s1, e, 79, 3);
    RunsInTurn(crc, s0, Repeat(t, 3491), Repeat(e, 3));
  }

  /** EDGE 2 IS REACHED.  After 3491 telemetry records and four events on a reset ring the next record, whatever it
      is, is counted and not handed out: the lookup behind the fourth event fails. */
  lemma LeftoverReached(crc: Checksum, mem: seq<byte>, t: Record, e: Record, next: Record)
    returns (queue: seq<Record>, s: Ring, r: Ring, u: Ring)
    requires |mem| == DEVICE && t.kind == TELEMETRY && e.kind == EVENT && next.kind <= EVENT
    ensures s == Run(crc, Reset(crc, mem), ToLeftover(t, e)) && queue == PutsOf(ToLeftover(t, e))
    ensures Keeps(crc, s, queue) && Bounded(s) && Leftover(s, e) == 3
    ensures r == Put(crc, s, e) && Keeps(crc, r, queue + [e]) && u == Put(crc, r, next)
    ensures |u.mem| == DEVICE && ReadHeader(u.mem, r.meta.head) == None
    ensures u.meta.count == |queue| + 2 && HandsOut(crc, u) == queue + [e]
  {
    s := ToLeftoverRun(crc, mem, t, e);
    queue := Sound(crc, mem, ToLeftover(t, e));
    r := LeftoverFourth(crc, s, queue, e);
    u := LeftoverThen(crc, r, queue + [e], next);
  }

  lemma LeftoverFourth(crc: Checksum, s: Ring, queue: seq<Record>, e: Record) returns (r: Ring)
    requires Keeps(crc, s, queue) && HasMagicRoom(s) && Bounded(s) && e.kind == EVENT
    requires s.meta.head == DATA_START + 262062 && s.meta.tail == DATA_START
    requires s.meta.seqNo + |queue| + 1 < WORD && s.meta.count + 1 < WORD
    ensures Leftover(s, e) == 3 && r == Put(crc, s, e) && Bounded(r) && Keeps(crc, r, queue + [e])
    ensures r.meta.head == DATA_START + 262141 && r.meta.tail == DATA_START && r.meta.seqNo == s.meta.seqNo + 1
  {
    LeftoverPlace(s.meta.head);
    PutWithoutDrop(crc, s, e);
    PutHead(crc, s, e);
    var k := PutRefines(crc, s, queue, e);
    r := Put(crc, s, e);
    assert queue[0..] == queue;
  }

  lemma LeftoverThen(crc: Checksum, r: Ring, held: seq<Record>, next: Record) returns (u: Ring)
    requires Keeps(crc, r, held) && Bounded(r) && next.kind <= EVENT && r.meta.seqNo + |held| + 1 < WORD
    requires r.meta.head == DATA_START + 262141 && r.meta.tail == DATA_START
    ensures u == Put(crc, r, next) && |u.mem| == DEVICE && ReadHeader(u.mem, r.meta.head) == None
    ensures u.meta.count == |held| + 1 && HandsOut(crc, u) == held
  {
    LeftoverPlace(r.meta.head - 79);
    PutWithoutDrop(crc, r, next);
    var k;
    k, u := LeftoverDelivers(crc, r, held, next);
    assert held[0..] + [] == held;
  }

  lemma LeftoverPlace(h: nat)
    requires h == DATA_START + 262062
    ensures h % SECTOR == 262062 && Target(h, 79) == h && NextSector(h + 79) == EDGE != DATA_START
  {
  }

  // ---------------------------------------------------------------- a sector filled exactly, one lap on

  const FILLED: nat := 262125                     // 3495 telemetry records fill a sector but for 19 bytes
  const EDGE: nat := 786432                       // the start of the second data sector

  /** `k` more sectors full of telemetry records. */
  function Lap(t: Record, k: nat): (ops: seq<Op>)
    ensures |ops| == 3495 * k
  {
    if k == 0 then [] else Lap(t, k - 1) + Repeat(t, 3495)
  }

  /** Where the head is when a sector is full of telemetry records. */
  lemma LapPlace(k: nat, h: nat)
    requires k <= 252 && h == DATA_START + k * SECTOR + FILLED
    ensures h % SECTOR == FILLED && NextSector(h) == if k == 252 then DATA_START else DATA_START + (k + 1) * SECTOR
  {
    Offset(h, k, FILLED);
    assert h / SECTOR == k + 2;
  }

  /** The sector behind one full of telemetry records filled in the same way. */
  lemma LapSector(crc: Checksum, s: Ring, t: Record, k: nat) returns (r: Ring)
    requires Bounded(s) && t.kind == TELEMETRY && k < 252 && s.meta.head == DATA_START + k * SECTOR + FILLED
    requires k > 0 ==> s.mem[EDGE..EDGE + 75] == Encode(crc, t)
    ensures r == Run(crc, s, Repeat(t, 3495)) && Bounded(r) && AllLeaveRoom(crc, s, Repeat(t, 3495))
    ensures r.meta.head == DATA_START + (k + 1) * SECTOR + FILLED && r.mem[EDGE..EDGE + 75] == Encode(crc, t)
    ensures NoDrop(s, r, 3495)
  {
    LapPlace(k, s.meta.head);
    var edge;
    edge, r := EnteringRun(crc, s, t, 75, 3495);
    EdgeKept(r.mem, s.mem, k, edge, Encode(crc, t));
  }

  lemma EdgeKept(m: seq<byte>, mem: seq<byte>, k: nat, edge: nat, data: seq<byte>)
    requires k < 252 && edge == DATA_START + (k + 1) * SECTOR && |data| == 75
    requires DataOutside(m, mem, edge, edge + SECTOR) && m[edge..edge + 75] == data
    requires k > 0 ==> mem[EDGE..EDGE + 75] == data
    ensures m[EDGE..EDGE + 75] == data
  {
    if k > 0 {
      SliceKept(m, mem, edge, edge + SECTOR, EDGE, EDGE + 75);
    }
  }

  lemma {:induction false} LapRun(crc: Checksum, s: Ring, t: Record, k: nat) returns (r: Ring)
    requires Bounded(s) && t.kind == TELEMETRY && s.meta.head == DATA_START + FILLED && k <= 252
    ensures r == Run(crc, s, Lap(t, k)) && Bounded(r) && AllLeaveRoom(crc, s, Lap(t, k))
    ensures r.meta.head == DATA_START + k * SECTOR + FILLED
    ensures k > 0 ==> r.mem[EDGE..EDGE + 75] == Encode(crc, t)
    ensures NoDrop(s, r, 3495 * k)
    decreases k
  {
    if k == 0 {
      r := s;
    } else {
      var s' := LapRun(crc, s, t, k - 1);
      r := LapSector(crc, s', t, k - 1);
      RunsInTurn(crc, s, Lap(t, k - 1), Repeat(t, 3495));
    }
  }

  /** Every sector full once. */
  function FirstLap(t: Record): seq<Op> {
    Repeat(t, 3495) + Lap(t, 252)
  }

  /** The first sector filled again, exactly but for one event record. */
  function Refill(t: Record, e: Record): seq<Op> {
    Repeat(t, 3431) + Repeat(e, 60)
  }

  lemma FirstLapRun(crc: Checksum, mem: seq<byte>, t: Record) returns (s: Ring)
    requires |mem| == DEVICE && t.kind == TELEMETRY
    ensures s == Run(crc, Reset(crc, mem), FirstLap(t)) && Bounded(s)
    ensures AllLeaveRoom(crc, Reset(crc, mem), FirstLap(t))
    ensures s.meta.head == DATA_START + 252 * SECTOR + FILLED && s.mem[EDGE..EDGE + 75] == Encode(crc, t)
  {
    var s0 := Reset(crc, mem);
    Offset(s0.meta.head, 0, 0);
    var s1 := InsideRun(crc, s0, t, 75, 3495);
    s := LapRun(crc, s1, t, 252);
    RunsInTurn(crc, s0, Repeat(t, 3495), Lap(t, 252));
  }

  /** The sector behind the k-th full one filled in that way. */
  lemma RefillRun(crc: Checksum, s: Ring, t: Record, e: Record, k: nat) returns (a: nat, r: Ring)
    requires Bounded(s) && t.kind == TELEMETRY && e.kind == EVENT && k <= 252
    requires s.meta.head == DATA_START + k * SECTOR + FILLED
    ensures r == Run(crc, s, Refill(t, e)) && Bounded(r) && AllLeaveRoom(crc, s, Refill(t, e))
    ensures a == (if k == 252 then DATA_START else DATA_START + (k + 1) * SECTOR) && r.meta.head == a + 262065
    ensures DataOutside(r.mem, s.mem, a, a + SECTOR) && (k < 252 ==> NoDrop(s, r, 3491))
  {
    LapPlace(k, s.meta.head);
    var m;
    a, m := EnteringRun(crc, s, t, 75, 3431);
    r := RefillRest(crc, m, e, a);
    RunsInTurn(crc, s, Repeat(t, 3431), Repeat(e, 60));
    DataWithin(r.mem, m.mem, s.mem, a, a + SECTOR, m.meta.head, r.meta.head);
  }

  lemma RefillRest(crc: Checksum, s: Ring, e: Record, a: nat) returns (r: Ring)
    requires Bounded(s) && e.kind == EVENT && a % SECTOR == 0 && s.meta.head == a + 257325
    ensures r == Run(crc, s, Repeat(e, 60)) && Bounded(r) && AllLeaveRoom(crc, s, Repeat(e, 60))
    ensures r.meta.head == a + 262065 && DataOutside(r.mem, s.mem, s.meta.head, r.meta.head) && NoDrop(s, r, 60)
  {
    assert s.meta.head % SECTOR == 257325;
    r := InsideRun(crc, s, e, 79, 60);
  }

  lemma ToExactFillRun(crc: Checksum, mem: seq<byte>, t: Record, e: Record) returns (s: Ring)
    requires |mem| == DEVICE && t.kind == TELEMETRY && e.kind == EVENT
    ensures s == Run(crc, Reset(crc, mem), FirstLap(t) + Refill(t, e)) && Bounded(s)
    ensures AllLeaveRoom(crc, Reset(crc, mem), FirstLap(t) + Refill(t, e))
    ensures s.meta.head == DATA_START + 262065 && s.mem[EDGE..EDGE + 75] == Encode(crc, t)
  {
    var m := FirstLapRun(crc, mem, t);
    var a;
    a, s := RefillRun(crc, m, t, e, 252);
    SliceKept(s.mem, m.mem, a, a + SECTOR, EDGE, EDGE + 75);
    RunsInTurn(crc, Reset(crc, mem), FirstLap(t), Refill(t, e));
  }

  /** `held` is `queue` after dropping a prefix and appending `e`. */
  ghost predicate Follows(held: seq<Record>, queue: seq<Record>, e: Record) {
    exists j :: 0 <= j <= |queue| && held == queue[j..] + [e]
  }

  /** EDGE 1 IS REACHED: after a lap of telemetry records `t` and a first sector then filled exactly, the next
      record is read back only if `t` covers it; one of another kind never is. */
  lemma ExactFillReached(crc: Checksum, mem: seq<byte>, t: Record, e: Record, next: Record)
    returns (queue: seq<Record>, s: Ring, r: Ring, held: seq<Record>, k: nat, u: Ring)
    requires |mem| == DEVICE && t.kind == TELEMETRY && e.kind == EVENT && next.kind <= EVENT
    ensures s == Run(crc, Reset(crc, mem), FirstLap(t) + Refill(t, e)) && Keeps(crc, s, queue) && Leftover(s, e) == 0
    ensures Bounded(s) && r == Put(crc, s, e) && Follows(held, queue, e) && Reads(crc, r, held) && r.meta.head == EDGE
    ensures u == Put(crc, r, next) && |u.mem| == DEVICE && Unerased(crc, r, held, next, k, u)
    ensures ReadRecord(crc, u.mem, EDGE) == Some(Found(next, EDGE)) <==> Covers(crc, t, next)
    ensures QueueIn(crc, u.mem) == Some(held[k..] + [next]) <==> if Over(r) then next == t else Covers(crc, t, next)
  {
    s := ToExactFillRun(crc, mem, t, e);
    queue := Sound(crc, mem, FirstLap(t) + Refill(t, e));
    r, held, k, u := FilledExactly(crc, s, queue, t, e, next);
  }

  lemma FilledExactly(crc: Checksum, s: Ring, queue: seq<Record>, t: Record, e: Record, next: Record)
    returns (r: Ring, held: seq<Record>, k: nat, u: Ring)
    requires Keeps(crc, s, queue) && HasMagicRoom(s) && s.meta.seqNo + |queue| + 3 < WORD
    requires Bounded(s) && t.kind == TELEMETRY && e.kind == EVENT && next.kind <= EVENT
    requires s.meta.head == DATA_START + 262065 && s.mem[EDGE..EDGE + 75] == Encode(crc, t)
    ensures Leftover(s, e) == 0 && r == Put(crc, s, e) && u == Put(crc, r, next) && |u.mem| == DEVICE
    ensures Follows(held, queue, e) && Reads(crc, r, held) && r.meta.head == EDGE && Unerased(crc, r, held, next, k, u)
    ensures ReadRecord(crc, u.mem, EDGE) == Some(Found(next, EDGE)) <==> Covers(crc, t, next)
    ensures QueueIn(crc, u.mem) == Some(held[k..] + [next]) <==> if Over(r) then next == t else Covers(crc, t, next)
  {
    var v := PutSteps(crc, s, e);
    FilledStep(crc, s, t, e, v);
    r, u := ExactFillOverOld(crc, s, e, t, next);
    held, k := FilledQueue(crc, s, queue, e, r, next, u);
    KeptBehindLap(crc, r, held, t, next, k, u);
  }

  lemma FilledQueue(crc: Checksum, s: Ring, queue: seq<Record>, e: Record, r: Ring, next: Record, u: Ring)
    returns (held: seq<Record>, k: nat)
    requires Keeps(crc, s, queue) && HasMagicRoom(s) && Bounded(s) && s.meta.seqNo + |queue| + 3 < WORD
    requires e.kind <= EVENT && next.kind <= EVENT && Leftover(s, e) == 0
    requires r == Put(crc, s, e) && u == Put(crc, r, next)
    ensures Follows(held, queue, e) && Reads(crc, r, held) && Unerased(crc, r, held, next, k, u)
  {
    var j, r', u';
    j, r', k, u' := ExactFillExactly(crc, s, queue, e, next);
    held := queue[j..] + [e];
  }

  lemma FilledStep(crc: Checksum, s: Ring, t: Record, e: Record, r: Ring)
    requires PutStep(crc, s, e, r) && t.kind == TELEMETRY && e.kind == EVENT
    requires s.meta.head == DATA_START + 262065 && s.mem[EDGE..EDGE + 75] == Encode(crc, t)
    ensures Leftover(s, e) == 0 && r.meta.head == EDGE && r.mem[EDGE..EDGE + 75] == Encode(crc, t)
  {
    SliceKept(r.mem, s.mem, s.meta.head, EDGE, EDGE, EDGE + 75);
  }

  // ---------------------------------------------------------------- the head comes round to the tail

  /** Every sector full once, the last one but for the last event record. */
  function FullLap(t: Record, e: Record): (ops: seq<Op>)
    ensures |ops| == 884231 && ops[0] == PutOp(t)
  {
    Repeat(t, 3495) + Lap(t, 251) + Refill(t, e)
  }

  lemma FullLapRun(crc: Checksum, mem: seq<byte>, t: Record, e: Record) returns (s: Ring)
    requires |mem| == DEVICE && t.kind == TELEMETRY && e.kind == EVENT
    ensures s == Run(crc, Reset(crc, mem), FullLap(t, e)) && Bounded(s)
    ensures AllLeaveRoom(crc, Reset(crc, mem), FullLap(t, e))
    ensures s.meta.head == DATA_START + 252 * SECTOR + 262065
    ensures s.meta.tail == DATA_START && s.meta.count == |FullLap(t, e)|
  {
    var s0 := Reset(crc, mem);
    Offset(s0.meta.head, 0, 0);
    var s1 := InsideRun(crc, s0, t, 75, 3495);
    var s2 := LapRun(crc, s1, t, 251);
    var a;
    a, s := RefillRun(crc, s2, t, e, 251);
    RunsInTurn(crc, s0, Repeat(t, 3495), Lap(t, 251));
    RunsInTurn(crc, s0, Repeat(t, 3495) + Lap(t, 251), Refill(t, e));
  }

  /** THE HEAD MEETS THE TAIL.  A lap of records, none dropped or consumed, that ends with an exact fill of the last
      sector leaves the head at the tail.  The room check sees room, and the next put is programmed over the
      oldest record without dropping it. */
  lemma FullLapReached(crc: Checksum, mem: seq<byte>, t: Record, e: Record, next: Record)
    returns (s: Ring, r: Ring, u: Ring)
    requires |mem| == DEVICE && t.kind == TELEMETRY && e.kind == EVENT && next.kind <= EVENT
    ensures s == Run(crc, Reset(crc, mem), FullLap(t, e)) && Keeps(crc, s, PutsOf(FullLap(t, e)))
    ensures Bounded(s) && Leftover(s, e) == 0 && r == Put(crc, s, e) && u == Put(crc, r, next)
    ensures var queue := PutsOf(FullLap(t, e)) + [e];
            && Reads(crc, r, queue) && queue[0] == t && r.meta.head == DATA_START && Over(r) && Room(r, Size(next))
            && Unerased(crc, r, queue, next, 0, u)
  {
    s := FullLapRun(crc, mem, t, e);
    var queue := Sound(crc, mem, FullLap(t, e));
    r, u := FullLapThen(crc, s, queue, e, next);
  }

  lemma FullLapThen(crc: Checksum, s: Ring, queue: seq<Record>, e: Record, next: Record) returns (r: Ring, u: Ring)
    requires Keeps(crc, s, queue) && HasMagicRoom(s) && Bounded(s) && e.kind == EVENT && next.kind <= EVENT
    requires s.meta.head == DATA_START + 252 * SECTOR + 262065 && s.meta.tail == DATA_START
    requires s.meta.count + 1 < WORD && s.meta.seqNo + |queue| + 3 < WORD
    ensures Leftover(s, e) == 0 && r == Put(crc, s, e) && u == Put(crc, r, next)
    ensures r.meta.head == DATA_START && Reads(crc, r, queue + [e]) && Over(r) && Room(r, Size(next))
    ensures Unerased(crc, r, queue + [e], next, 0, u)
  {
    LastSector(s.meta.head);
    PutWithoutDrop(crc, s, e);
    PutHead(crc, s, e);
    var j, k;
    j, r, k, u := ExactFillExactly(crc, s, queue, e, next);
    assert queue[0..] == queue;
  }

  lemma LastSector(h: nat)
    requires h == DATA_START + 252 * SECTOR + 262065
    ensures h % SECTOR == 262065 && Target(h, 79) == h && Wrap(h + 79) == DATA_START
  {
  }
}

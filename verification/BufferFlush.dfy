/** Publishing buffered records oldest first (buffer_flush.c).  Turning a record into a topic and a
    JSON text is abstracted to whether it can be done. */
module BufferFlush {
  import opened Records
  import opened FlashBuffer
  import opened BufferManager

  type Encodable = Record -> bool

  /** Whether the k-th publish attempt succeeds. */
  type Uplink = nat -> bool

  /** The MQTT client. */
  class Link {
    const up: Uplink
    var attempts: nat
    var sent: seq<Record>

    constructor (up: Uplink)
      ensures this.up == up && attempts == 0 && sent == []
    {
      this.up := up;
      attempts, sent := 0, [];
    }

    method Publish(r: Record) returns (ok: bool)
      modifies this
      ensures ok == up(old(attempts)) && attempts == old(attempts) + 1
      ensures sent == if ok then old(sent) + [r] else old(sent)
    {
      ok := up(attempts);
      attempts := attempts + 1;
      if ok {
        sent := sent + [r];
      }
    }
  }

  // ---------------------------------------------------------------- one loop as a function

  /** One tier, oldest record first, and the client. */
  datatype Tier = Tier(rest: seq<Slot>, sent: seq<Record>, attempts: nat, balance: int)

  /** What became of the oldest record; Sent also stands for a loop that ended because its batch was
      full. */
  datatype Tried = Empty | Corrupt | Skipped | Refused | Sent

  function Try(s: Tier, up: Uplink, encodable: Encodable): Tried {
    if s.rest == [] then Empty
    else if s.rest[0] == None then Corrupt
    else if !encodable(s.rest[0].value) then Skipped
    else if up(s.attempts) then Sent
    else Refused
  }

  function AfterTry(s: Tier, up: Uplink, encodable: Encodable): Tier {
    match Try(s, up, encodable)
    case Empty => s
    case Corrupt => s.(rest := s.rest[1..])
    case Skipped => s.(rest := s.rest[1..], balance := s.balance + 1)
    case Refused => s.(attempts := s.attempts + 1)
    case Sent => s.(rest := s.rest[1..], sent := s.sent + [s.rest[0].value], attempts := s.attempts + 1)
  }

  datatype Outcome = Outcome(tier: Tier, flushed: nat, why: Tried)

  /** A loop that may still publish `left` records and has published `flushed`. */
  function FlushLoop(s: Tier, flushed: nat, left: nat, up: Uplink, encodable: Encodable): Outcome
    decreases |s.rest|
  {
    if left == 0 then Outcome(s, flushed, Sent)
    else
      var t, next := Try(s, up, encodable), AfterTry(s, up, encodable);
      if t.Skipped? then FlushLoop(next, flushed, left, up, encodable)
      else if t.Sent? then FlushLoop(next, flushed + 1, left - 1, up, encodable)
      else Outcome(next, flushed, t)
  }

  /** The records of a stretch of the queue that can be published. */
  function Publishable(q: seq<Slot>, encodable: Encodable): (r: seq<Record>)
    ensures |r| <= |q|
  {
    if q == [] then []
    else (if q[0].Some? && encodable(q[0].value) then [q[0].value] else []) + Publishable(q[1..], encodable)
  }

  lemma {:induction false} PublishableAppend(x: seq<Slot>, y: seq<Slot>, encodable: Encodable)
    ensures Publishable(x + y, encodable) == Publishable(x, encodable) + Publishable(y, encodable)
    decreases |x|
  {
    if x == [] {
      assert x + y == y;
    } else {
      assert (x + y)[1..] == x[1..] + y;
      PublishableAppend(x[1..], y, encodable);
    }
  }

  /** What a loop does: it takes a prefix off the tier and publishes what of it can be published, in
      order; and it says why it stopped. */
  ghost predicate Flushes(s: Tier, n: nat, o: Outcome, flushed: nat, left: nat, up: Uplink, encodable: Encodable) {
    && n <= |s.rest| && o.tier.rest == s.rest[n..]
    && o.tier.sent == s.sent + Publishable(s.rest[..n], encodable)
    && o.flushed == flushed + |Publishable(s.rest[..n], encodable)| <= flushed + left
    && o.tier.balance == s.balance + n - (o.flushed - flushed) - (if o.why.Corrupt? then 1 else 0)
    && o.tier.attempts == s.attempts + (o.flushed - flushed) + (if o.why.Refused? then 1 else 0)
    && (forall k :: s.attempts <= k < s.attempts + (o.flushed - flushed) ==> up(k))
    && match o.why
       case Empty => o.tier.rest == []
       case Corrupt => n > 0 && s.rest[n - 1] == None
       case Skipped => false
       case Refused => !up(s.attempts + (o.flushed - flushed))
       case Sent => o.flushed == flushed + left
  }

  lemma {:induction false} FlushLoopFlushes(s: Tier, flushed: nat, left: nat, up: Uplink, encodable: Encodable)
    returns (n: nat)
    ensures Flushes(s, n, FlushLoop(s, flushed, left, up, encodable), flushed, left, up, encodable)
    decreases |s.rest|
  {
    var t, next := Try(s, up, encodable), AfterTry(s, up, encodable);
    if left > 0 && t.Skipped? {
      var m := FlushLoopFlushes(next, flushed, left, up, encodable);
      SkippedFirst(s, m, FlushLoop(next, flushed, left, up, encodable), flushed, left, up, encodable);
      n := m + 1;
    } else if left > 0 && t.Sent? {
      var m := FlushLoopFlushes(next, flushed + 1, left - 1, up, encodable);
      SentFirst(s, m, FlushLoop(next, flushed + 1, left - 1, up, encodable), flushed, left, up, encodable);
      n := m + 1;
    } else {
      n := if left > 0 && t.Corrupt? then 1 else 0;
      Stopped(s, flushed, left, up, encodable);
    }
  }

  lemma Stopped(s: Tier, flushed: nat, left: nat, up: Uplink, encodable: Encodable)
    requires left == 0 || !(Try(s, up, encodable).Skipped? || Try(s, up, encodable).Sent?)
    ensures var n := if left > 0 && Try(s, up, encodable).Corrupt? then 1 else 0;
            Flushes(s, n, FlushLoop(s, flushed, left, up, encodable), flushed, left, up, encodable)
  {
    assert s.rest[..0] == [] && s.rest[0..] == s.rest;
    if left > 0 && Try(s, up, encodable).Corrupt? {
      assert s.rest[..1][1..] == [];
      assert Publishable(s.rest[..1], encodable) == [];
    }
  }

  lemma SkippedFirst(s: Tier, m: nat, o: Outcome, flushed: nat, left: nat, up: Uplink, encodable: Encodable)
    requires Try(s, up, encodable).Skipped? && Flushes(AfterTry(s, up, encodable), m, o, flushed, left, up, encodable)
    ensures Flushes(s, m + 1, o, flushed, left, up, encodable)
  {
    TakeOneMore(s.rest, m);
    assert Publishable(s.rest[..m + 1], encodable) == [] + Publishable(s.rest[1..][..m], encodable);
  }

  lemma SentFirst(s: Tier, m: nat, o: Outcome, flushed: nat, left: nat, up: Uplink, encodable: Encodable)
    requires left > 0 && Try(s, up, encodable).Sent?
    requires Flushes(AfterTry(s, up, encodable), m, o, flushed + 1, left - 1, up, encodable)
    ensures Flushes(s, m + 1, o, flushed, left, up, encodable)
  {
    TakeOneMore(s.rest, m);
    var first, later := s.rest[0].value, Publishable(s.rest[1..][..m], encodable);
    assert Publishable(s.rest[..m + 1], encodable) == [first] + later;
    assert (s.sent + [first]) + later == s.sent + ([first] + later);
  }

  lemma TakeOneMore(q: seq<Slot>, m: nat)
    requires m < |q|
    ensures q[1..][m..] == q[m + 1..] && q[1..][..m] == q[..m + 1][1..] && q[..m + 1][0] == q[0]
  {
  }

  lemma StopsOneLater(s: Tier, m: nat, o: Outcome, encodable: Encodable)
    requires s.rest != [] && s.rest[0].Some? && StopsAt(s.(rest := s.rest[1..]), m, o, encodable)
    ensures StopsAt(s, m + 1, o, encodable)
  {
    var k := if o.why.Corrupt? then m - 1 else m;
    var later, q := s.rest[1..][..k], s.rest[..k + 1];
    assert forall i :: 0 < i < |q| ==> q[i] == later[i - 1];
  }

  /** Where a loop stops: behind the first corrupt row if that is what stopped it, and otherwise among intact
      ones, in front of a publishable record if the client refused it. */
  ghost predicate StopsAt(s: Tier, n: nat, o: Outcome, encodable: Encodable) {
    && n <= |s.rest| && o.tier.rest == s.rest[n..]
    && (o.why.Corrupt? ==> n > 0)
    && Intact(s.rest[..if o.why.Corrupt? then n - 1 else n])
    && (o.why.Refused? ==> n < |s.rest| && s.rest[n].Some? && encodable(s.rest[n].value))
  }

  lemma {:induction false} FlushLoopStops(s: Tier, flushed: nat, left: nat, up: Uplink, encodable: Encodable)
    returns (n: nat)
    ensures StopsAt(s, n, FlushLoop(s, flushed, left, up, encodable), encodable)
    decreases |s.rest|
  {
    var t, next := Try(s, up, encodable), AfterTry(s, up, encodable);
    if left > 0 && t.Skipped? {
      var m := FlushLoopStops(next, flushed, left, up, encodable);
      StopsOneLater(s, m, FlushLoop(next, flushed, left, up, encodable), encodable);
      n := m + 1;
    } else if left > 0 && t.Sent? {
      var m := FlushLoopStops(next, flushed + 1, left - 1, up, encodable);
      StopsOneLater(s, m, FlushLoop(next, flushed + 1, left - 1, up, encodable), encodable);
      n := m + 1;
    } else {
      n := if left > 0 && t.Corrupt? then 1 else 0;
    }
  }

  // ---------------------------------------------------------------- both loops

  predicate Intact(q: seq<Slot>) {
    forall i :: 0 <= i < |q| ==> q[i].Some?
  }

  /** Once an attempt fails, the later ones do. */
  ghost predicate StaysDown(up: Uplink) {
    forall i: nat, j: nat :: i <= j && up(j) ==> up(i)
  }

  function Second(ram: seq<Slot>, first: Outcome, batch: nat, up: Uplink, encodable: Encodable): Outcome {
    var left := if first.flushed <= batch then batch - first.flushed else 0;
    FlushLoop(first.tier.(rest := ram), first.flushed, left, up, encodable)
  }

  /** Both loops: `n` persistent and `m` RAM records are gone, and those of them that can be
      published were. */
  ghost predicate FlushedBoth(p: seq<Slot>, n: nat, ram: seq<Slot>, m: nat, before: seq<Record>, last: Tier,
                              flushed: nat, encodable: Encodable) {
    && n <= |p| && m <= |ram| && last.rest == ram[m..]
    && last.sent == before + Publishable(p[..n], encodable) + Publishable(ram[..m], encodable)
    && flushed == |Publishable(p[..n], encodable)| + |Publishable(ram[..m], encodable)|
  }

  /** The client takes the attempts from the `a`-th on until it refuses the k-th of them, and then takes
      the next one. */
  ghost predicate RefusesOnce(up: Uplink, a: nat, k: nat) {
    (forall i :: a <= i < a + k ==> up(i)) && !up(a + k) && up(a + k + 1)
  }

  /** Where the first corrupt row is. */
  function FirstCorrupt(p: seq<Slot>): (c: nat)
    ensures c <= |p| && Intact(p[..c]) && (c < |p| ==> p[c] == None)
  {
    if p == [] || p[0] == None then 0
    else
      var c := 1 + FirstCorrupt(p[1..]);
      assert forall i :: 0 < i < c ==> p[1..][i - 1] == p[i];
      c
  }

  /** The first loop gives up before a publishable record that the client refuses, which then takes the next. */
  ghost predicate RecoversBetween(p: seq<Slot>, a: nat, batch: nat, up: Uplink, encodable: Encodable) {
    exists k :: 0 <= k < batch && k < |Publishable(p[..FirstCorrupt(p)], encodable)| && RefusesOnce(up, a, k)
  }

  /** The first loop gives up at a corrupt row with publishable records behind it, while the batch and the
      client would still take one. */
  ghost predicate BlockedByCorrupt(p: seq<Slot>, a: nat, batch: nat, up: Uplink, encodable: Encodable) {
    var c := FirstCorrupt(p);
    var m := |Publishable(p[..c], encodable)|;
    && c < |p| && m < batch && Publishable(p[c + 1..], encodable) != []
    && forall i :: a <= i <= a + m ==> up(i)
  }

  /** The guard of the order: RAM holds something to publish, and the first loop stops before its time. */
  ghost predicate Overtaking(p: seq<Slot>, ram: seq<Slot>, a: nat, batch: nat, up: Uplink, encodable: Encodable) {
    && Publishable(ram, encodable) != []
    && (RecoversBetween(p, a, batch, up, encodable) || BlockedByCorrupt(p, a, batch, up, encodable))
  }

  lemma PublishableGrows(q: seq<Slot>, i: nat, j: nat, encodable: Encodable)
    requires i <= j <= |q|
    ensures |Publishable(q[..i], encodable)| <= |Publishable(q[..j], encodable)|
    ensures i < j && q[i].Some? && encodable(q[i].value) ==>
              |Publishable(q[..i], encodable)| < |Publishable(q[..j], encodable)|
  {
    assert q[..j][..i] == q[..i] && q[..j][i..] == q[i..j];
    SplitPublishable(q[..j], i, encodable);
  }

  lemma IntactUpTo(p: seq<Slot>, n: nat)
    requires n <= |p| && Intact(p[..n])
    ensures n <= FirstCorrupt(p)
  {
    assert forall i :: 0 <= i < n ==> p[i] == p[..n][i];
  }

  /** How the first loop ends, by what it has published. */
  lemma FirstLoopEnds(s: Tier, batch: nat, up: Uplink, encodable: Encodable) returns (n: nat, o: Outcome)
    ensures o == FlushLoop(s, 0, batch, up, encodable)
    ensures EndedWell(s, n, o, batch, up, encodable)
  {
    o := FlushLoop(s, 0, batch, up, encodable);
    n := FlushLoopFlushes(s, 0, batch, up, encodable);
    var n' := FlushLoopStops(s, 0, batch, up, encodable);
    SameRest(s.rest, n, n');
    var c := FirstCorrupt(s.rest);
    if o.why.Corrupt? {
      IntactUpTo(s.rest, n - 1);
      CorruptAt(s.rest, n, encodable);
    } else {
      IntactUpTo(s.rest, n);
      PublishableGrows(s.rest, n, c, encodable);
    }
  }

  lemma SameRest(p: seq<Slot>, n: nat, m: nat)
    requires n <= |p| && m <= |p| && p[n..] == p[m..]
    ensures n == m
  {
    assert |p[n..]| == |p| - n && |p[m..]| == |p| - m;
  }

  lemma CorruptAt(p: seq<Slot>, n: nat, encodable: Encodable)
    requires 0 < n <= |p| && p[n - 1] == None && n - 1 <= FirstCorrupt(p)
    ensures FirstCorrupt(p) == n - 1
    ensures Publishable(p[..n], encodable) == Publishable(p[..n - 1], encodable)
  {
    var c := FirstCorrupt(p);
    assert forall i :: 0 <= i < c ==> p[i] == p[..c][i];
    assert p[..n][..n - 1] == p[..n - 1] && p[..n][n - 1..] == [None];
    SplitPublishable(p[..n], n - 1, encodable);
    assert Publishable([None], encodable) == [];
  }

  /** Whether the second loop publishes anything. */
  lemma SecondLoopSends(s: Tier, flushed: nat, left: nat, up: Uplink, encodable: Encodable)
    requires Intact(s.rest)
    ensures FlushLoop(s, flushed, left, up, encodable).flushed > flushed
            <==> left > 0 && Publishable(s.rest, encodable) != [] && up(s.attempts)
  {
    var o := FlushLoop(s, flushed, left, up, encodable);
    var n := FlushLoopFlushes(s, flushed, left, up, encodable);
    SplitPublishable(s.rest, n, encodable);
  }

  /** ORDER, EXACTLY.  A call publishes a RAM record while a publishable persistent one is left behind, if and
      only if RAM holds something to publish and the client recovers between the loops, or a corrupt row
      ends the first one early. */
  lemma OvertakesExactly(p: seq<Slot>, ram: seq<Slot>, before: seq<Record>, a: nat, balance: int, batch: nat,
                         up: Uplink, encodable: Encodable)
    returns (n: nat, first: Outcome, last: Outcome)
    requires Intact(ram)
    ensures first == FlushLoop(Tier(p, before, a, balance), 0, batch, up, encodable)
    ensures last == Second(ram, first, batch, up, encodable)
    ensures Flushes(Tier(p, before, a, balance), n, first, 0, batch, up, encodable)
    ensures Publishable(first.tier.rest, encodable) != [] && last.flushed > first.flushed
            <==> Overtaking(p, ram, a, batch, up, encodable)
  {
    var s := Tier(p, before, a, balance);
    n, first := FirstLoopEnds(s, batch, up, encodable);
    last := Second(ram, first, batch, up, encodable);
    SecondLoopSends(first.tier.(rest := ram), first.flushed, batch - first.flushed, up, encodable);
    WhyOvertakes(s, n, first, batch, up, encodable);
  }

  /** How the first loop ended, in terms of its tier alone. */
  ghost predicate EndedWell(s: Tier, n: nat, o: Outcome, batch: nat, up: Uplink, encodable: Encodable) {
    var c := FirstCorrupt(s.rest);
    var m := |Publishable(s.rest[..c], encodable)|;
    && Flushes(s, n, o, 0, batch, up, encodable) && o.flushed <= m
    && (o.why.Empty? ==> c == |s.rest|)
    && (o.why.Corrupt? ==> c < |s.rest| && n == c + 1 && o.flushed == m)
    && (o.why.Refused? ==> o.flushed < m && Publishable(o.tier.rest, encodable) != [])
  }

  lemma WhyOvertakes(s: Tier, n: nat, o: Outcome, batch: nat, up: Uplink, encodable: Encodable)
    requires EndedWell(s, n, o, batch, up, encodable)
    ensures Publishable(o.tier.rest, encodable) != [] && o.flushed < batch && up(o.tier.attempts)
            <==> RecoversBetween(s.rest, s.attempts, batch, up, encodable)
                 || BlockedByCorrupt(s.rest, s.attempts, batch, up, encodable)
  {
    if Publishable(o.tier.rest, encodable) != [] && o.flushed < batch && up(o.tier.attempts) && o.why.Refused? {
      assert RefusesOnce(up, s.attempts, o.flushed);
    }
    if RecoversBetween(s.rest, s.attempts, batch, up, encodable) {
      RecoveryOvertakes(s, n, o, batch, up, encodable);
    }
    if BlockedByCorrupt(s.rest, s.attempts, batch, up, encodable) {
      CorruptionOvertakes(s, n, o, batch, up, encodable);
    }
  }

  lemma RecoveryOvertakes(s: Tier, n: nat, o: Outcome, batch: nat, up: Uplink, encodable: Encodable)
    requires EndedWell(s, n, o, batch, up, encodable) && RecoversBetween(s.rest, s.attempts, batch, up, encodable)
    ensures Publishable(o.tier.rest, encodable) != [] && o.flushed < batch && up(o.tier.attempts)
  {
    var k :| 0 <= k < batch && k < |Publishable(s.rest[..FirstCorrupt(s.rest)], encodable)|
             && RefusesOnce(up, s.attempts, k);
    assert o.flushed <= k;
    var next := up(s.attempts + o.flushed);
  }

  lemma CorruptionOvertakes(s: Tier, n: nat, o: Outcome, batch: nat, up: Uplink, encodable: Encodable)
    requires EndedWell(s, n, o, batch, up, encodable) && BlockedByCorrupt(s.rest, s.attempts, batch, up, encodable)
    ensures Publishable(o.tier.rest, encodable) != [] && o.flushed < batch && up(o.tier.attempts)
  {
    var next := up(s.attempts + o.flushed);
  }

  /** Both happen. */
  lemma RamOvertakes(x: Record, y: Record, a: nat, up: Uplink, encodable: Encodable)
    requires encodable(x) && encodable(y)
    ensures RefusesOnce(up, a, 0) ==> Overtaking([Some(x)], [Some(y)], a, 1, up, encodable)
    ensures up(a) ==> Overtaking([None, Some(x)], [Some(y)], a, 1, up, encodable)
  {
    IntactUpTo([Some(x)], 1);
    assert [Some(x)][..1] == [Some(x)];
    var q: seq<Slot> := [None, Some(x)];
    assert q[..0] == [] && q[1..] == [Some(x)];
  }

  /** A client that stays down and intact rows rule it out. */
  lemma SteadyKeepsOrder(p: seq<Slot>, ram: seq<Slot>, a: nat, batch: nat, up: Uplink, encodable: Encodable)
    requires Intact(p) && StaysDown(up)
    ensures !Overtaking(p, ram, a, batch, up, encodable)
  {
    IntactUpTo(p, |p|);
    assert p[..|p|] == p;
  }

  /** FLUSH.  Unless a RAM record overtakes, what was published followed by what can be published of the rest
      is what could be published of the whole queue, in its order.  A call publishes at most its batch;
      with intact rows and a client that stays down it publishes less only when nothing is left or the
      client refused. */
  lemma FlushDeliversPrefix(p: seq<Slot>, ram: seq<Slot>, before: seq<Record>, attempts: nat, balance: int,
                            batch: nat, up: Uplink, encodable: Encodable)
    returns (n: nat, first: Outcome, m: nat, last: Outcome)
    requires Intact(ram) && !Overtaking(p, ram, attempts, batch, up, encodable)
    ensures first == FlushLoop(Tier(p, before, attempts, balance), 0, batch, up, encodable)
    ensures last == Second(ram, first, batch, up, encodable)
    ensures n <= |p| && first.tier.rest == p[n..]
    ensures FlushedBoth(p, n, ram, m, before, last.tier, last.flushed, encodable) && last.flushed <= batch
    ensures var rest := first.tier.rest + last.tier.rest;
            && last.tier.sent + Publishable(rest, encodable) == before + Publishable(p + ram, encodable)
            && (Intact(p) ==> last.tier.balance == balance + n + m - last.flushed)
            && (Intact(p) && StaysDown(up) ==> rest == [] || last.flushed == batch || !up(attempts + last.flushed))
  {
    n, first, last := OvertakesExactly(p, ram, before, attempts, balance, batch, up, encodable);
    m := SecondFlushes(ram, first, batch, up, encodable, last);
    BothLoops(Tier(p, before, attempts, balance), n, first, first.tier.(rest := ram), m, last, batch, up, encodable);
  }

  lemma SecondFlushes(ram: seq<Slot>, first: Outcome, batch: nat, up: Uplink, encodable: Encodable, last: Outcome)
    returns (m: nat)
    requires first.flushed <= batch && last == Second(ram, first, batch, up, encodable)
    ensures Flushes(first.tier.(rest := ram), m, last, first.flushed, batch - first.flushed, up, encodable)
  {
    m := FlushLoopFlushes(first.tier.(rest := ram), first.flushed, batch - first.flushed, up, encodable);
  }

  /** What the two loops have done together. */
  lemma BothLoops(s: Tier, n: nat, first: Outcome, s2: Tier, m: nat, last: Outcome, batch: nat,
                  up: Uplink, encodable: Encodable)
    requires Flushes(s, n, first, 0, batch, up, encodable) && s2 == first.tier.(rest := s2.rest) && Intact(s2.rest)
    requires Flushes(s2, m, last, first.flushed, batch - first.flushed, up, encodable)
    requires Publishable(first.tier.rest, encodable) == [] || last.flushed <= first.flushed
    ensures FlushedBoth(s.rest, n, s2.rest, m, s.sent, last.tier, last.flushed, encodable)
    ensures var rest := first.tier.rest + last.tier.rest;
            && last.tier.sent + Publishable(rest, encodable) == s.sent + Publishable(s.rest + s2.rest, encodable)
            && (Intact(s.rest) ==> last.tier.balance == s.balance + n + m - last.flushed)
            && (Intact(s.rest) && StaysDown(up) ==>
                  rest == [] || last.flushed == batch || !up(s.attempts + last.flushed))
  {
    if Intact(s.rest) && StaysDown(up) {
      WhyLess(s, n, first, s2, m, last, batch, up, encodable);
    }
    OneOrder(s.rest, n, s2.rest, m, s.sent, last.tier, encodable);
  }

  lemma WhyLess(s: Tier, n: nat, first: Outcome, s2: Tier, m: nat, last: Outcome, batch: nat,
                up: Uplink, encodable: Encodable)
    requires Intact(s.rest) && Intact(s2.rest) && StaysDown(up) && Flushes(s, n, first, 0, batch, up, encodable)
    requires s2 == first.tier.(rest := s2.rest)
    requires Flushes(s2, m, last, first.flushed, batch - first.flushed, up, encodable)
    ensures first.tier.rest + last.tier.rest == [] || last.flushed == batch || !up(s.attempts + last.flushed)
  {
    var late := up(s2.attempts);
  }

  lemma OneOrder(p: seq<Slot>, n: nat, ram: seq<Slot>, m: nat, before: seq<Record>, last: Tier, encodable: Encodable)
    requires n <= |p| && m <= |ram|
    requires Publishable(p[n..], encodable) == [] || Publishable(ram[..m], encodable) == []
    requires last.rest == ram[m..]
    requires last.sent == before + Publishable(p[..n], encodable) + Publishable(ram[..m], encodable)
    ensures last.sent + Publishable(p[n..] + last.rest, encodable) == before + Publishable(p + ram, encodable)
  {
    PublishableAppend(p, ram, encodable);
    SplitPublishable(p, n, encodable);
    SplitPublishable(ram, m, encodable);
    PublishableAppend(p[n..], ram[m..], encodable);
    InOrder(before, Publishable(p[..n], encodable), Publishable(p[n..], encodable),
            Publishable(ram[..m], encodable), Publishable(ram[m..], encodable));
  }

  lemma SplitPublishable(q: seq<Slot>, n: nat, encodable: Encodable)
    requires n <= |q|
    ensures Publishable(q, encodable) == Publishable(q[..n], encodable) + Publishable(q[n..], encodable)
    ensures n == |q| ==> Publishable(q[n..], encodable) == []
  {
    PublishableAppend(q[..n], q[n..], encodable);
    assert q[..n] + q[n..] == q;
  }

  lemma InOrder<T>(before: seq<T>, a: seq<T>, b: seq<T>, c: seq<T>, d: seq<T>)
    requires b == [] || c == []
    ensures (before + a + c) + (b + d) == before + ((a + b) + (c + d))
  {
  }

  // ---------------------------------------------------------------- the code

  ghost function PersistentTier(b: BufferManager, link: Link): Tier
    reads b, b.flash, link
  {
    Tier(b.Persistent(), link.sent, link.attempts, b.Balance())
  }

  ghost function RamTier(b: BufferManager, link: Link): Tier
    reads b, b.flash, link
  {
    Tier(Lifted(b.ram), link.sent, link.attempts, b.Balance())
  }

  /** One turn of the first loop. */
  method TryPersistent(b: BufferManager, link: Link, encodable: Encodable) returns (go: bool, sent: bool)
    requires b.Valid()
    modifies b, b.flash, b.flash.flash, link
    ensures b.Valid() && b.ram == old(b.ram)
    ensures PersistentTier(b, link) == AfterTry(old(PersistentTier(b, link)), link.up, encodable)
    ensures var t := Try(old(PersistentTier(b, link)), link.up, encodable);
            go == (t.Skipped? || t.Sent?) && sent == t.Sent?
  {
    var next := b.PeekPersistent();
    if next == None {
      return false, false;
    }
    if !encodable(next.value) {
      var _ := b.ConsumePersistent();
      b.dropped := b.dropped + 1;
      return true, false;
    }
    var ok := link.Publish(next.value);
    if !ok {
      return false, false;
    }
    var _ := b.ConsumePersistent();
    return true, true;
  }

  /** One turn of the second loop. */
  method TryRam(b: BufferManager, link: Link, encodable: Encodable) returns (go: bool, sent: bool)
    requires b.Valid()
    modifies b, link
    ensures b.Valid() && b.Persistent() == old(b.Persistent())
    ensures RamTier(b, link) == AfterTry(old(RamTier(b, link)), link.up, encodable)
    ensures var t := Try(old(RamTier(b, link)), link.up, encodable); go == (t.Skipped? || t.Sent?) && sent == t.Sent?
  {
    var next := b.Peek();
    if next == None {
      return false, false;
    }
    LiftedShift(b.ram, next.value);
    if !encodable(next.value) {
      var _ := b.Consume();
      b.dropped := b.dropped + 1;
      return true, false;
    }
    var ok := link.Publish(next.value);
    if !ok {
      return false, false;
    }
    var _ := b.Consume();
    return true, true;
  }

  /** Phase 1 of buffer_flush_records: it ends because every turn that goes on leaves one record less. */
  method FlushPersistent(b: BufferManager, link: Link, batch: nat, encodable: Encodable) returns (flushed: nat)
    requires b.Valid()
    modifies b, b.flash, b.flash.flash, link
    ensures b.Valid() && b.ram == old(b.ram)
    ensures var o := FlushLoop(old(PersistentTier(b, link)), 0, batch, link.up, encodable);
            PersistentTier(b, link) == o.tier && flushed == o.flushed
  {
    flushed := 0;
    ghost var o := FlushLoop(PersistentTier(b, link), 0, batch, link.up, encodable);
    while flushed < batch
      invariant b.Valid() && b.ram == old(b.ram) && flushed <= batch
      invariant FlushLoop(PersistentTier(b, link), flushed, batch - flushed, link.up, encodable) == o
      decreases |PersistentTier(b, link).rest|
    {
      var go, sent := TryPersistent(b, link, encodable);
      if !go {
        return;
      }
      if sent {
        flushed := flushed + 1;
      }
    }
  }

  /** Phase 2 of buffer_flush_records. */
  method FlushRam(b: BufferManager, link: Link, already: nat, batch: nat, encodable: Encodable) returns (flushed: nat)
    requires b.Valid() && already <= batch
    modifies b, link
    ensures b.Valid() && b.Persistent() == old(b.Persistent())
    ensures var o := FlushLoop(old(RamTier(b, link)), already, batch - already, link.up, encodable);
            RamTier(b, link) == o.tier && flushed == o.flushed
  {
    flushed := already;
    ghost var o := FlushLoop(RamTier(b, link), already, batch - already, link.up, encodable);
    while flushed < batch
      invariant b.Valid() && b.Persistent() == old(b.Persistent()) && flushed <= batch
      invariant FlushLoop(RamTier(b, link), flushed, batch - flushed, link.up, encodable) == o
      decreases |RamTier(b, link).rest|
    {
      var go, sent := TryRam(b, link, encodable);
      if !go {
        return;
      }
      if sent {
        flushed := flushed + 1;
      }
    }
  }

  /** The two loops of buffer_flush_records. */
  method FlushTiers(b: BufferManager, link: Link, batch: nat, encodable: Encodable) returns (flushed: nat)
    requires b.Valid()
    modifies b, b.flash, b.flash.flash, link
    ensures b.Valid()
    ensures var first := FlushLoop(old(PersistentTier(b, link)), 0, batch, link.up, encodable);
            var last := Second(old(Lifted(b.ram)), first, batch, link.up, encodable);
            && b.Persistent() == first.tier.rest && RamTier(b, link) == last.tier && flushed == last.flushed
  {
    ghost var before := PersistentTier(b, link);
    FlushBounded(before, 0, batch, link.up, encodable);
    var first := FlushPersistent(b, link, batch, encodable);
    flushed := FlushRam(b, link, first, batch, encodable);
  }

  /** buffer_flush_records */
  method FlushRecords(b: BufferManager, link: Link, enabled: bool, batch: nat, encodable: Encodable)
    returns (flushed: nat)
    requires b.Valid()
    modifies b, b.flash, b.flash.flash, link
    ensures b.Valid() && (!enabled ==> flushed == 0 && b.Contents() == old(b.Contents()) && link.sent == old(link.sent))
    ensures enabled
            && !Overtaking(old(b.Persistent()), Lifted(old(b.ram)), old(link.attempts), batch, link.up, encodable) ==>
              && link.sent + Publishable(b.Contents(), encodable)
                 == old(link.sent) + Publishable(old(b.Contents()), encodable)
              && flushed <= batch
    ensures enabled && Intact(old(b.Persistent())) && StaysDown(link.up) ==>
              b.Contents() == [] || flushed == batch || !link.up(old(link.attempts) + flushed)
  {
    if !enabled {
      return 0;
    }
    ghost var p, ram, sent, attempts, balance := b.Persistent(), Lifted(b.ram), link.sent, link.attempts, b.Balance();
    flushed := FlushTiers(b, link, batch, encodable);
    if Intact(p) && StaysDown(link.up) {
      SteadyKeepsOrder(p, ram, attempts, batch, link.up, encodable);
    }
    if !Overtaking(p, ram, attempts, batch, link.up, encodable) {
      var n, first, m, last := FlushDeliversPrefix(p, ram, sent, attempts, balance, batch, link.up, encodable);
    }
  }

  lemma FlushBounded(s: Tier, flushed: nat, left: nat, up: Uplink, encodable: Encodable)
    ensures FlushLoop(s, flushed, left, up, encodable).flushed <= flushed + left
  {
    var n := FlushLoopFlushes(s, flushed, left, up, encodable);
  }
}

/** The migration flag of buffer_mgr.c under interleaving: the writer task spills the oldest RAM record in
    three steps, one per critical section, while the flusher task peeks, publishes and consumes. */
module Migration {
  import opened Records
  import opened Cyclic

  /** Records are named by the order they were put in. */
  type Id = nat

  /** The writer between its critical sections: a copy of the oldest record is being written to the
      persistent tier, or has been, successfully or not. */
  datatype Writer = Idle | Spilling(candidate: Id) | Spilled(candidate: Id, ok: bool)

  /** The flusher in its second loop: it holds a copy of a RAM record, published or not yet. */
  datatype Flusher = Resting | Peeked(id: Id) | Published(id: Id)

  /** The RAM ring, the migration flag, the persistent tier and both tasks. */
  datatype System = System(ring: seq<Id>, head: nat, tail: nat, count: nat, pending: bool, flash: seq<Id>,
                           flashCap: nat,
                           dropOldest: bool, writer: Writer, flusher: Flusher, next: Id, sent: seq<Id>)

  /** One critical section of a task. */
  datatype Step = Begin | Spill(ok: bool) | Finish | FlushPersistent | Peek | Publish | Consume

  predicate WellFormed(s: System) {
    && s.ring != [] && s.flashCap > 0 && |s.flash| <= s.flashCap
    && s.tail < |s.ring| && s.count <= |s.ring| && s.head == At(s.tail, s.count, |s.ring|)
  }

  function Ram(s: System): (q: seq<Id>)
    requires WellFormed(s)
    ensures |q| == s.count
  {
    Window(s.ring, s.tail, s.count)
  }

  // ---------------------------------------------------------------- the steps

  function Stored(s: System): System
    requires WellFormed(s) && s.count < |s.ring|
  {
    s.(ring := s.ring[s.head := s.next], head := Succ(s.head, |s.ring|), count := s.count + 1, next := s.next + 1)
  }

  function Advanced(s: System): System
    requires WellFormed(s) && s.count > 0
  {
    s.(tail := Succ(s.tail, |s.ring|), count := s.count - 1)
  }

  /** The persistent tier takes a record, giving up its oldest when full. */
  function FlashAfter(flash: seq<Id>, cap: nat, id: Id): seq<Id>
    requires 0 < |flash| || 0 < cap
  {
    if |flash| >= cap then flash[1..] + [id] else flash + [id]
  }

  predicate Enabled(s: System, step: Step) {
    match step
    case Begin => s.writer.Idle?
    case Spill(ok) => s.writer.Spilling? && (ok && |s.flash| >= s.flashCap ==> s.dropOldest)
    case Finish => s.writer.Spilled?
    case FlushPersistent => s.flusher.Resting? && s.flash != []
    case Peek => s.flusher.Resting?
    case Publish => s.flusher.Peeked?
    case Consume => s.flusher.Published?
  }

  function After(s: System, step: Step): System
    requires WellFormed(s) && Enabled(s, step)
  {
    match step
    // buffer_mgr_put_record_internal, up to the first taskEXIT_CRITICAL
    case Begin => if s.count >= |s.ring| then s.(pending := true, writer := Spilling(s.ring[s.tail])) else Stored(s)
    // persistent_buffer_put_record
    case Spill(ok) =>
      var flash := if ok then FlashAfter(s.flash, s.flashCap, s.writer.candidate)
                   else if |s.flash| >= s.flashCap && s.dropOldest then s.flash[1..] else s.flash;
      s.(flash := flash, writer := Spilled(s.writer.candidate, ok))
    // the rest of buffer_mgr_put_record_internal
    case Finish =>
      var t := s.(pending := false, writer := Idle);
      var u := if s.writer.ok && t.count > 0 then Advanced(t) else t;
      if u.count < |u.ring| then Stored(u)
      else if u.dropOldest then Stored(Advanced(u))
      else u.(next := u.next + 1)
    // one turn of the first loop of buffer_flush_records, under the persistent lock
    case FlushPersistent => s.(sent := s.sent + [s.flash[0]], flash := s.flash[1..])
    // buffer_mgr_peek
    case Peek => if s.count == 0 || s.pending then s else s.(flusher := Peeked(s.ring[s.tail]))
    case Publish => s.(sent := s.sent + [s.flusher.id], flusher := Published(s.flusher.id))
    // buffer_mgr_consume; its result is ignored
    case Consume => (if s.count == 0 || s.pending then s else Advanced(s)).(flusher := Resting)
  }

  // ---------------------------------------------------------------- what every step keeps

  /** While a migration is pending the ring cannot move and its oldest record is the candidate. */
  predicate TailFixed(s: System)
    requires WellFormed(s)
  {
    match s.writer
    case Idle => !s.pending
    case Spilling(c) => s.pending && s.count == |s.ring| && s.ring[s.tail] == c
    case Spilled(c, _) => s.pending && s.count == |s.ring| && s.ring[s.tail] == c
  }

  /** The one queue: persistent records, then RAM records; a record already spilled counts once. */
  function Logical(s: System): seq<Id>
    requires WellFormed(s) && TailFixed(s)
  {
    s.flash + if s.writer.Spilled? && s.writer.ok then Ram(s)[1..] else Ram(s)
  }

  /** Records in the order of production, all older than `n`. */
  ghost predicate Ordered(q: seq<Id>, n: Id) {
    && (forall i, j :: 0 <= i < j < |q| ==> q[i] < q[j])
    && (forall i :: 0 <= i < |q| ==> q[i] < n)
  }

  ghost predicate Inv(s: System) {
    && WellFormed(s) && TailFixed(s)
    && Ordered(Logical(s), s.next)
    && (s.writer.Spilled? && s.writer.ok ==> s.writer.candidate in s.flash || s.writer.candidate in s.sent)
  }

  lemma StoredAdds(s: System)
    requires WellFormed(s) && s.count < |s.ring|
    ensures WellFormed(Stored(s)) && Ram(Stored(s)) == Ram(s) + [s.next]
  {
    Push(s.ring, s.tail, s.count, s.head, s.next);
  }

  lemma AdvancedDrops(s: System)
    requires WellFormed(s) && s.count > 0
    ensures WellFormed(Advanced(s)) && Ram(Advanced(s)) == Ram(s)[1..] && s.ring[s.tail] == Ram(s)[0]
  {
    Pop(s.ring, s.tail, s.count);
  }

  lemma BeginLogical(s: System)
    requires WellFormed(s) && TailFixed(s) && Enabled(s, Begin)
    ensures var t := After(s, Begin);
            && WellFormed(t) && TailFixed(t)
            && Logical(t) == if s.count < |s.ring| then Logical(s) + [s.next] else Logical(s)
  {
    if s.count < |s.ring| {
      StoredAdds(s);
    }
  }

  lemma SpillLogical(s: System, ok: bool)
    requires WellFormed(s) && TailFixed(s) && Enabled(s, Spill(ok))
    ensures var t := After(s, Spill(ok));
            && WellFormed(t) && TailFixed(t)
            && Logical(t) == if |s.flash| >= s.flashCap && s.dropOldest then Logical(s)[1..] else Logical(s)
  {
    AdvancedDrops(s);
    Seam(s.flash, Ram(s));
    if s.flash != [] {
      Seam(s.flash[1..], Ram(s));
    }
  }

  lemma FinishLogical(s: System)
    requires WellFormed(s) && TailFixed(s) && Enabled(s, Finish)
    ensures var t := After(s, Finish);
            && WellFormed(t) && TailFixed(t)
            && Logical(t) == (if s.writer.ok then Logical(s) + [s.next]
                              else if s.dropOldest then s.flash + (Ram(s)[1..] + [s.next]) else Logical(s))
  {
    var t := s.(pending := false, writer := Idle);
    AdvancedDrops(t);
    if s.writer.ok || s.dropOldest {
      StoredAdds(Advanced(t));
      assert Ram(Stored(Advanced(t))) == Ram(s)[1..] + [s.next];
    }
  }

  lemma ConsumeLogical(s: System)
    requires WellFormed(s) && TailFixed(s) && Enabled(s, Consume)
    ensures var t := After(s, Consume);
            && WellFormed(t) && TailFixed(t)
            && Logical(t) == if s.count == 0 || s.pending then Logical(s) else s.flash + Ram(s)[1..]
  {
    if s.count > 0 && !s.pending {
      AdvancedDrops(s);
    }
  }

  lemma OrderedWithout(q: seq<Id>, k: nat, n: Id)
    requires Ordered(q, n) && k < |q|
    ensures Ordered(q[..k] + q[k + 1..], n)
  {
    var r := q[..k] + q[k + 1..];
    forall i, j | 0 <= i < j < |r| ensures r[i] < r[j] {
      assert r[i] == q[if i < k then i else i + 1] && r[j] == q[if j < k then j else j + 1];
    }
    forall i | 0 <= i < |r| ensures r[i] < n {
      assert r[i] == q[if i < k then i else i + 1];
    }
  }

  lemma OrderedNext(q: seq<Id>, n: Id)
    requires Ordered(q, n)
    ensures Ordered(q + [n], n + 1)
  {
  }

  /** Taking out the oldest record of the second tier. */
  lemma OrderedSecond(x: seq<Id>, y: seq<Id>, n: Id)
    requires Ordered(x + y, n) && y != []
    ensures Ordered(x + y[1..], n) && Ordered(x + (y[1..] + [n]), n + 1)
  {
    OrderedWithout(x + y, |x|, n);
    assert (x + y)[..|x|] + (x + y)[|x| + 1..] == x + y[1..];
    assert x + (y[1..] + [n]) == (x + y[1..]) + [n];
  }

  /** Taking out the oldest record of all. */
  lemma OrderedFirst(q: seq<Id>, n: Id)
    requires Ordered(q, n) && q != []
    ensures Ordered(q[1..], n)
  {
  }

  lemma Seam(x: seq<Id>, y: seq<Id>)
    ensures x != [] ==> (x + y)[1..] == x[1..] + y
    ensures y != [] ==> (x + [y[0]]) + y[1..] == x + y
  {
  }

  lemma BeginKeeps(s: System)
    requires Inv(s) && Enabled(s, Begin)
    ensures Inv(After(s, Begin))
  {
    BeginLogical(s);
    OrderedNext(Logical(s), s.next);
  }

  lemma SpillKeeps(s: System, ok: bool)
    requires Inv(s) && Enabled(s, Spill(ok))
    ensures Inv(After(s, Spill(ok)))
  {
    SpillLogical(s, ok);
    if Logical(s) != [] {
      OrderedFirst(Logical(s), s.next);
    }
  }

  lemma FinishKeeps(s: System)
    requires Inv(s) && Enabled(s, Finish)
    ensures Inv(After(s, Finish))
  {
    FinishLogical(s);
    if s.writer.ok {
      OrderedNext(Logical(s), s.next);
    } else {
      OrderedSecond(s.flash, Ram(s), s.next);
    }
    OrderedLater(Logical(s), s.next);
  }

  lemma OrderedLater(q: seq<Id>, n: Id)
    requires Ordered(q, n)
    ensures Ordered(q, n + 1)
  {
  }

  lemma ConsumeKeeps(s: System)
    requires Inv(s) && Enabled(s, Consume)
    ensures Inv(After(s, Consume))
  {
    ConsumeLogical(s);
    if s.count > 0 && !s.pending {
      OrderedSecond(s.flash, Ram(s), s.next);
    }
  }

  lemma FlushKeeps(s: System)
    requires Inv(s) && Enabled(s, FlushPersistent)
    ensures Inv(After(s, FlushPersistent))
  {
    Seam(s.flash, if s.writer.Spilled? && s.writer.ok then Ram(s)[1..] else Ram(s));
    OrderedFirst(Logical(s), s.next);
  }

  /** SAFETY.  Whatever the schedule, the queue stays in the order of production, and while a migration is
      pending the oldest RAM record is the one being spilled. */
  lemma StepKeeps(s: System, step: Step)
    requires Inv(s) && Enabled(s, step)
    ensures Inv(After(s, step))
  {
    match step
    case Begin => BeginKeeps(s);
    case Spill(ok) => SpillKeeps(s, ok);
    case Finish => FinishKeeps(s);
    case FlushPersistent => FlushKeeps(s);
    case Peek =>
    case Publish =>
    case Consume => ConsumeKeeps(s);
  }

  // ---------------------------------------------------------------- runs

  predicate EnabledRun(s: System, steps: seq<Step>)
    requires WellFormed(s) && TailFixed(s)
    decreases |steps|
  {
    steps != [] ==> Enabled(s, steps[0]) && (StepLogical(s, steps[0]); EnabledRun(After(s, steps[0]), steps[1..]))
  }

  function Run(s: System, steps: seq<Step>): (t: System)
    requires WellFormed(s) && TailFixed(s) && EnabledRun(s, steps)
    ensures WellFormed(t) && TailFixed(t)
    decreases |steps|
  {
    if steps == [] then s else StepLogical(s, steps[0]); Run(After(s, steps[0]), steps[1..])
  }

  lemma StepLogical(s: System, step: Step)
    requires WellFormed(s) && TailFixed(s) && Enabled(s, step)
    ensures WellFormed(After(s, step)) && TailFixed(After(s, step))
  {
    match step
    case Begin => BeginLogical(s);
    case Spill(ok) => SpillLogical(s, ok);
    case Finish => FinishLogical(s);
    case Consume => ConsumeLogical(s);
    case FlushPersistent =>
    case Peek =>
    case Publish =>
  }

  lemma {:induction false} RunKeeps(s: System, steps: seq<Step>)
    requires Inv(s) && EnabledRun(s, steps)
    ensures Inv(Run(s, steps))
    decreases |steps|
  {
    if steps != [] {
      StepKeeps(s, steps[0]);
      RunKeeps(After(s, steps[0]), steps[1..]);
    }
  }

  /** What RAM peek shows has not been spilled: it is in no persistent row, after any run. */
  lemma PeekNotSpilled(s: System, steps: seq<Step>)
    requires Inv(s) && EnabledRun(s, steps) && Run(s, steps).flusher == Resting
    ensures var t := Run(s, steps); var u := After(t, Peek);
            u.flusher.Peeked? ==> t.count > 0 && u.flusher.id == Ram(t)[0] && u.flusher.id !in t.flash
  {
    RunKeeps(s, steps);
    var t := Run(s, steps);
    if t.count > 0 && !t.pending {
      assert Logical(t)[|t.flash|] == Ram(t)[0] == t.ring[t.tail];
      forall i | 0 <= i < |t.flash| ensures t.flash[i] != Ram(t)[0] {
        assert Logical(t)[i] == t.flash[i];
      }
    }
  }

  /** The record a completed spill takes out of RAM is the one that was written. */
  lemma SpillRemovesCandidate(s: System, steps: seq<Step>)
    requires Inv(s) && EnabledRun(s, steps) && Run(s, steps).writer.Spilled? && Run(s, steps).writer.ok
    ensures var t := Run(s, steps); var u := After(t, Finish);
            && t.count > 0 && Ram(t)[0] == t.writer.candidate
            && (t.writer.candidate in t.flash || t.writer.candidate in t.sent)
            && WellFormed(u) && Ram(u) == Ram(t)[1..] + [t.next]
  {
    RunKeeps(s, steps);
    var t := Run(s, steps);
    AdvancedDrops(t);
    StoredAdds(Advanced(t));
    FinishLogical(t);
  }

  // ---------------------------------------------------------------- peek, publish, consume

  /** What has been published, or is about to be. */
  function Seen(s: System): seq<Id> {
    s.sent + if s.flusher.Resting? then [] else [s.flusher.id]
  }

  /** Published records are never newer than what is in RAM. */
  ghost predicate SentFirst(s: System)
    requires WellFormed(s)
  {
    && Ordered(Ram(s), s.next)
    && (s.writer.Spilled? && s.writer.ok ==> forall x :: x in s.flash ==> x <= s.writer.candidate)
    && (forall x :: x in Seen(s) ==> x < s.next && (s.count > 0 ==> x <= Ram(s)[0]))
  }

  lemma RamAfter(s: System, step: Step)
    requires WellFormed(s) && TailFixed(s) && Enabled(s, step)
    ensures var t := After(s, step);
            && WellFormed(t)
            && Ram(t) == match step
                         case Begin => if s.count < |s.ring| then Ram(s) + [s.next] else Ram(s)
                         case Finish => if s.writer.ok || s.dropOldest then Ram(s)[1..] + [s.next] else Ram(s)
                         case Consume => if s.count == 0 || s.pending then Ram(s) else Ram(s)[1..]
                         case _ => Ram(s)
  {
    match step
    case Begin =>
      if s.count < |s.ring| {
        StoredAdds(s);
      }
    case Finish =>
      var t := s.(pending := false, writer := Idle);
      AdvancedDrops(t);
      StoredAdds(Advanced(t));
    case Consume =>
      if s.count > 0 && !s.pending {
        AdvancedDrops(s);
      }
    case _ =>
  }

  lemma OldestGrows(s: System, step: Step)
    requires Inv(s) && Ordered(Ram(s), s.next) && Enabled(s, step)
    ensures var t := After(s, step);
            && WellFormed(t) && Ordered(Ram(t), t.next) && s.next <= t.next
            && (t.count > 0 ==> Ram(t)[0] == s.next || (s.count > 0 && Ram(s)[0] <= Ram(t)[0]))
  {
    RamAfter(s, step);
    OrderedNext(Ram(s), s.next);
    if s.count > 0 {
      OrderedFirst(Ram(s), s.next);
      OrderedNext(Ram(s)[1..], s.next);
    }
  }

  lemma SeenAfter(s: System, step: Step, x: Id)
    requires Inv(s) && Enabled(s, step) && x in Seen(After(s, step))
    ensures x in Seen(s) || x in s.flash || (s.count > 0 && x == Ram(s)[0])
  {
  }

  lemma SentFirstKept(s: System, step: Step)
    requires Inv(s) && SentFirst(s) && Enabled(s, step)
    ensures WellFormed(After(s, step)) && SentFirst(After(s, step))
  {
    var t := After(s, step);
    OldestGrows(s, step);
    FlashOlder(s);
    forall x | x in Seen(t) ensures x < t.next && (t.count > 0 ==> x <= Ram(t)[0]) {
      SeenAfter(s, step, x);
    }
    forall x | x in t.flash ensures x in s.flash || (step.Spill? && x == s.writer.candidate) {
    }
  }

  lemma FlashOlder(s: System)
    requires Inv(s) && SentFirst(s)
    ensures forall x :: x in s.flash ==> x < s.next && (s.count > 0 ==> x <= Ram(s)[0])
  {
    forall x | x in s.flash ensures x < s.next && (s.count > 0 ==> x <= Ram(s)[0]) {
      var i :| 0 <= i < |s.flash| && s.flash[i] == x;
      assert Logical(s)[i] == x;
      if s.count > 0 && !(s.writer.Spilled? && s.writer.ok) {
        assert Logical(s)[|s.flash|] == Ram(s)[0];
      }
    }
  }

  /** The steps that can happen while the flusher publishes what it has peeked. */
  predicate Meanwhile(step: Step) {
    step.Begin? || step.Spill? || step.Finish? || step.Publish?
  }

  /** How many spills were completed, or given up for a dropped record, in a run. */
  function Completed(s: System, steps: seq<Step>): nat
    requires WellFormed(s) && TailFixed(s) && EnabledRun(s, steps)
    decreases |steps|
  {
    if steps == [] then 0
    else
      StepLogical(s, steps[0]);
      (if steps[0].Finish? && (s.writer.ok || s.dropOldest) then 1 else 0) + Completed(After(s, steps[0]), steps[1..])
  }

  /** The oldest RAM record stays `id` until the first spill completes, and is newer from then on. */
  lemma {:induction false} OldestMeanwhile(s: System, steps: seq<Step>, id: Id)
    requires Inv(s) && SentFirst(s) && EnabledRun(s, steps) && (forall i :: 0 <= i < |steps| ==> Meanwhile(steps[i]))
    requires s.count > 0 && id <= Ram(s)[0] && !s.flusher.Resting? && s.flusher.id <= id
    requires forall x :: x in s.sent ==> x <= id
    ensures var t := Run(s, steps);
            && Inv(t) && SentFirst(t) && t.count > 0
            && (Completed(s, steps) == 0 ==> Ram(t)[0] == Ram(s)[0])
            && (Completed(s, steps) > 0 ==> Ram(t)[0] > Ram(s)[0])
            && forall x :: x in t.sent ==> x <= id
    decreases |steps|
  {
    if steps != [] {
      var next := After(s, steps[0]);
      StepKeeps(s, steps[0]);
      SentFirstKept(s, steps[0]);
      RamAfter(s, steps[0]);
      OldestMeanwhile(next, steps[1..], id);
    }
  }

  /** DELIVERY.  A record peeked from RAM, published and then consumed, with the writer running in
      between: while a migration is pending nothing is removed; otherwise what is removed is the
      record published exactly when no spill has completed since the peek.  If one has, the removed
      record was never published. */
  lemma ConsumeExactly(s: System, steps: seq<Step>)
    requires Inv(s) && SentFirst(s) && s.flusher.Resting? && s.count > 0 && !s.pending
    requires EnabledRun(After(s, Peek), steps) && (forall i :: 0 <= i < |steps| ==> Meanwhile(steps[i]))
    requires Run(After(s, Peek), steps).flusher.Published?
    ensures var id, t := Ram(s)[0], Run(After(s, Peek), steps);
            && t.flusher.id == id && t.count > 0
            && WellFormed(After(t, Consume)) && Ram(After(t, Consume)) == (if t.pending then Ram(t) else Ram(t)[1..])
            && (Ram(t)[0] == id <==> Completed(After(s, Peek), steps) == 0)
            && (Ram(t)[0] != id ==> Ram(t)[0] !in t.sent)
  {
    var p := After(s, Peek);
    assert Ram(s)[0] == s.ring[s.tail];
    StepKeeps(s, Peek);
    SentFirstKept(s, Peek);
    RamAfter(s, Peek);
    assert p.flusher == Peeked(Ram(s)[0]);
    SentOlder(s);
    OldestMeanwhile(p, steps, Ram(s)[0]);
    FlusherHolds(p, steps);
    RamAfter(Run(p, steps), Consume);
  }

  lemma SentOlder(s: System)
    requires WellFormed(s) && SentFirst(s) && s.count > 0
    ensures forall x :: x in s.sent ==> x <= Ram(s)[0]
  {
    forall x | x in s.sent ensures x <= Ram(s)[0] {
      assert x in Seen(s);
    }
  }

  lemma {:induction false} FlusherHolds(s: System, steps: seq<Step>)
    requires WellFormed(s) && TailFixed(s) && EnabledRun(s, steps) && !s.flusher.Resting?
    requires forall i :: 0 <= i < |steps| ==> Meanwhile(steps[i])
    ensures !Run(s, steps).flusher.Resting? && Run(s, steps).flusher.id == s.flusher.id
    decreases |steps|
  {
    if steps != [] {
      StepLogical(s, steps[0]);
      FlusherHolds(After(s, steps[0]), steps[1..]);
    }
  }

  /** buffer_mgr_init */
  function Fresh(ramCap: nat, flashCap: nat, dropOldest: bool): System {
    System(seq(ramCap, _ => 0), 0, 0, 0, false, [], flashCap, dropOldest, Idle, Resting, 0, [])
  }

  /** Every schedule from the start stays safe. */
  lemma {:induction false} EveryScheduleSafe(s: System, steps: seq<Step>)
    requires (Inv(s) && SentFirst(s))
            || (s.ring != [] && s.flashCap > 0 && s == Fresh(|s.ring|, s.flashCap, s.dropOldest))
    requires WellFormed(s) && TailFixed(s) && EnabledRun(s, steps)
    ensures var t := Run(s, steps); Inv(t) && SentFirst(t)
    decreases |steps|
  {
    if steps != [] {
      StepKeeps(s, steps[0]);
      SentFirstKept(s, steps[0]);
      EveryScheduleSafe(After(s, steps[0]), steps[1..]);
    }
  }
}

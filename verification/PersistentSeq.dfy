/** The persistent sequence counter: two Em_EEPROM rows written in turn (persistent_seq.c), and
    the counter gateway_ipc_next_seq issues numbers from. */
module PersistentSeq {
  import opened Words
  import opened Records

  const SEQ_MAGIC: u32 := 0x5345_5100
  const INTERVAL: nat := 100

  /** The numbers a bank carries. */
  datatype Pair = Pair(seqNo: u32, boot: u32)

  // ---------------------------------------------------------------- banks

  function BankBody(p: Pair): (b: seq<byte>)
    ensures |b| == 12
  {
    Le32(SEQ_MAGIC) + Le32(p.seqNo) + Le32(p.boot)
  }

  /** bank_prepare */
  function Prepare(crc: Checksum, p: Pair): Row {
    BankBody(p) + Le32(crc(BankBody(p))) + seq(496, _ => 0xFF)
  }

  /** bank_valid, and what a valid bank says. */
  function Held(crc: Checksum, row: Row): Option<Pair> {
    if U32At(row, 0) == SEQ_MAGIC && U32At(row, 12) == crc(row[..12])
    then Some(Pair(U32At(row, 4), U32At(row, 8))) else None
  }

  lemma BankRoundTrip(crc: Checksum, p: Pair)
    ensures Held(crc, Prepare(crc, p)) == Some(p)
  {
    var row, body := Prepare(crc, p), BankBody(p);
    assert row[..12] == body;
    assert row[0..4] == Le32(SEQ_MAGIC) && row[4..8] == Le32(p.seqNo) && row[8..12] == Le32(p.boot);
    assert row[12..16] == Le32(crc(body));
    Le32RoundTrip(row, 0, SEQ_MAGIC);
    Le32RoundTrip(row, 4, p.seqNo);
    Le32RoundTrip(row, 8, p.boot);
    Le32RoundTrip(row, 12, crc(body));
  }

  // ---------------------------------------------------------------- choosing a bank

  /** The bank a boot recovers from: 0 for A, 1 for B, -1 for neither. */
  function Choose(a: Option<Pair>, b: Option<Pair>): (source: int)
    ensures -1 <= source <= 1
  {
    if a.Some? && b.Some? then
      var diff := Diff(a.value.seqNo, b.value.seqNo);
      if diff > 0 then 0
      else if diff < 0 then 1
      else if a.value.boot >= b.value.boot then 0 else 1
    else if a.Some? then 0
    else if b.Some? then 1
    else -1
  }

  function Recovered(a: Option<Pair>, b: Option<Pair>): Pair {
    var source := Choose(a, b);
    if source == 0 && a.Some? then a.value else if source == 1 && b.Some? then b.value else Pair(0, 0)
  }

  /** `o` is nothing, or no newer than `p` as far as 32 bits can tell. */
  predicate NoNewer(o: Option<Pair>, p: Pair) {
    o.Some? ==> Diff(p.seqNo, o.value.seqNo) > 0 || (o.value.seqNo == p.seqNo && o.value.boot <= p.boot)
  }

  /** The newest durable pair is in one bank and the other bank cannot be mistaken for it. */
  predicate Recoverable(a: Option<Pair>, b: Option<Pair>, p: Pair) {
    (a == Some(p) && NoNewer(b, p)) || (b == Some(p) && NoNewer(a, p))
  }

  lemma RecoversNewest(a: Option<Pair>, b: Option<Pair>, p: Pair)
    requires Recoverable(a, b, p)
    ensures Recovered(a, b) == p && Choose(a, b) >= 0
  {
  }

  /** How far the wraparound comparison can be trusted: of two numbers `older` and `older + gap` the boot
      picks the larger exactly when the gap is below 2^31, or is 2^31 and the larger is in B. */
  lemma ChoosesNewerExactly(older: u32, gap: nat, newerInA: bool, boot: u32, boot': u32)
    requires 0 < gap < WORD
    ensures var newer := if older + gap < WORD then older + gap else older + gap - WORD;
            var a := Some(Pair(if newerInA then newer else older, boot));
            var b := Some(Pair(if newerInA then older else newer, boot'));
            (Choose(a, b) == if newerInA then 0 else 1) <==> (gap < 0x8000_0000 || (gap == 0x8000_0000 && !newerInA))
  {
  }

  // ---------------------------------------------------------------- the module's state and steps

  /** What both rows hold, then s_seq, s_boot_count, s_next_bank and gateway_ipc's s_seq_counter. */
  datatype Banks = Banks(a: Option<Pair>, b: Option<Pair>, seqNo: u32, boot: u32, next: nat, counter: u32)

  function Bank(s: Banks, bank: nat): Option<Pair> {
    if bank == 0 then s.a else s.b
  }

  function WithBank(s: Banks, bank: nat, row: Option<Pair>): Banks {
    if bank == 0 then s.(a := row) else s.(b := row)
  }

  /** How a row write ends: written; reported as failed; or cut short by a power loss. */
  datatype Write = Done | Failed(left: Option<Pair>) | Lost(left: Option<Pair>)

  /** A write that does not complete leaves the row as it was or invalid; one cut short may also
      just have completed. */
  predicate CanEnd(was: Option<Pair>, p: Pair, w: Write) {
    match w
    case Done => true
    case Failed(left) => left == was || left == None
    case Lost(left) => left == was || left == None || left == Some(p)
  }

  /** The row was completely written, whether or not the code got to know. */
  predicate Landed(p: Pair, w: Write) {
    w.Done? || (w.Lost? && w.left == Some(p))
  }

  function BankWritten(s: Banks, bank: nat, p: Pair, w: Write): Banks {
    WithBank(s, bank, if w.Done? then Some(p) else w.left)
  }

  function InitPair(s: Banks): Pair {
    var p := Recovered(s.a, s.b);
    Pair(p.seqNo, Inc32(p.boot))
  }

  function InitBank(s: Banks): nat {
    if Choose(s.a, s.b) <= 0 then 1 else 0
  }

  /** persistent_seq_init */
  function InitStep(s: Banks, w: Write): Banks {
    var p, bank := InitPair(s), InitBank(s);
    var t := BankWritten(s.(seqNo := p.seqNo, boot := p.boot), bank, p, w);
    if w.Done? then t.(next := 1 - bank) else t
  }

  /** persistent_seq_checkpoint */
  function CheckpointStep(s: Banks, n: u32, w: Write): Banks
    requires s.next < 2
  {
    var t := BankWritten(s.(seqNo := n), s.next, Pair(n, s.boot), w);
    if w.Done? then t.(next := 1 - s.next) else t
  }

  /** gateway_ipc_next_seq; the number it issues is the counter it finds. */
  function NextStep(s: Banks, w: Write): Banks
    requires s.next < 2
  {
    var t := s.(counter := Inc32(s.counter));
    if s.counter % INTERVAL == 0 then CheckpointStep(t, s.counter, w) else t
  }

  function Cold(s: Banks): Banks {
    s.(seqNo := 0, boot := 0, next := 0, counter := 0)
  }

  /** A boot: the statics start at zero, and gateway_ipc_init takes the counter over. */
  function BootStep(s: Banks, w: Write): Banks {
    var t := InitStep(Cold(s), w);
    t.(counter := t.seqNo)
  }

  class SequenceCounter {
    const crc: Checksum
    var bankA: Row
    var bankB: Row
    var seqNo: u32
    var bootCount: u32
    var nextBank: nat
    var counter: u32

    function State(): Banks
      reads this
    {
      Banks(Held(crc, bankA), Held(crc, bankB), seqNo, bootCount, nextBank, counter)
    }

    constructor (crc: Checksum, a: Row, b: Row)
      ensures this.crc == crc && State() == Banks(Held(crc, a), Held(crc, b), 0, 0, 0, 0)
    {
      this.crc := crc;
      bankA, bankB := a, b;
      seqNo, bootCount, nextBank, counter := 0, 0, 0, 0;
    }

    method BankWrite(bank: nat, p: Pair) returns (ok: bool, ghost w: Write)
      requires bank < 2
      modifies `bankA, `bankB
      ensures ok == w.Done? && !w.Lost?
      ensures CanEnd(Bank(old(State()), bank), p, w)
      ensures State() == BankWritten(old(State()), bank, p, w)
    {
      var row: Row := if bank == 0 then bankA else bankB;
      ok := *;
      if ok {
        row := Prepare(crc, p);
        BankRoundTrip(crc, p);
        w := Done;
      } else {
        var left: Row := *;
        if Held(crc, left) == None {
          row := left;
        }
        w := Failed(Held(crc, row));
      }
      if bank == 0 {
        bankA := row;
      } else {
        bankB := row;
      }
    }

    /** persistent_seq_init */
    method Init() returns (ok: bool, ghost w: Write)
      modifies this
      ensures ok == w.Done? && !w.Lost?
      ensures CanEnd(Bank(old(State()), InitBank(old(State()))), InitPair(old(State())), w)
      ensures State() == InitStep(old(State()), w)
    {
      var a, b := Held(crc, bankA), Held(crc, bankB);
      var source := Choose(a, b);
      var p := Recovered(a, b);
      var boot := Inc32(p.boot);
      seqNo := p.seqNo;
      bootCount := boot;
      var bank := if source <= 0 then 1 else 0;
      ok, w := BankWrite(bank, Pair(p.seqNo, boot));
      if !ok {
        return;
      }
      nextBank := if bank == 0 then 1 else 0;
    }

    /** persistent_seq_checkpoint */
    method Checkpoint(n: u32) returns (ghost w: Write)
      requires nextBank < 2
      modifies this
      ensures !w.Lost? && CanEnd(Bank(old(State()), old(nextBank)), Pair(n, old(bootCount)), w)
      ensures State() == CheckpointStep(old(State()), n, w)
    {
      seqNo := n;
      var ok;
      ok, w := BankWrite(nextBank, Pair(n, bootCount));
      if !ok {
        return;
      }
      nextBank := if nextBank == 0 then 1 else 0;
    }

    /** gateway_ipc_next_seq */
    method NextSeq() returns (n: u32, ghost w: Write)
      requires nextBank < 2
      modifies this
      ensures n == old(counter) && !w.Lost?
      ensures CanEnd(Bank(old(State()), old(nextBank)), Pair(n, old(bootCount)), w)
      ensures State() == NextStep(old(State()), w)
    {
      n := counter;
      counter := Inc32(counter);
      w := Done;
      if n % INTERVAL == 0 {
        w := Checkpoint(n);
      }
    }
  }

  // ---------------------------------------------------------------- one step

  /** The bank that is not written next holds the newest durable pair. */
  predicate Guarded(s: Banks, p: Pair) {
    s.next < 2 && Bank(s, 1 - s.next) == Some(p) && NoNewer(Bank(s, s.next), p)
  }

  /** INIT.  It recovers exactly the newest durable pair and counts the boot.  If it returns true the
      new pair is durable in the bank not written next; in every case what the following boot will
      find is the new pair if its row was completely written and the old pair otherwise. */
  lemma InitKeeps(s: Banks, p: Pair, w: Write)
    requires Recoverable(s.a, s.b, p) && p.boot < 0xFFFF_FFFF
    requires CanEnd(Bank(s, InitBank(s)), InitPair(s), w)
    ensures InitPair(s) == Pair(p.seqNo, p.boot + 1)
    ensures var q, t := InitPair(s), InitStep(s, w);
            && t.seqNo == q.seqNo && t.boot == q.boot
            && (w.Done? ==> Guarded(t, q))
            && Recoverable(t.a, t.b, if Landed(q, w) then q else p)
  {
    RecoversNewest(s.a, s.b, p);
    var q, bank := InitPair(s), InitBank(s);
    HeldAfter(s, bank, q, w);
  }

  /** What the two banks hold after a write to one of them. */
  lemma HeldAfter(s: Banks, bank: nat, q: Pair, w: Write)
    requires bank < 2 && CanEnd(Bank(s, bank), q, w)
    ensures var t := BankWritten(s, bank, q, w);
            && Bank(t, 1 - bank) == Bank(s, 1 - bank)
            && (if Landed(q, w) then Bank(t, bank) == Some(q) else Bank(t, bank) in {None, Bank(s, bank)})
  {
  }

  /** CHECKPOINT of a number less than 2^31 after the durable one: the old pair stays recoverable until
      the new one is. */
  lemma CheckpointKeeps(s: Banks, p: Pair, n: u32, w: Write)
    requires Guarded(s, p) && s.boot >= p.boot && Diff(n, p.seqNo) >= 0
    requires CanEnd(Bank(s, s.next), Pair(n, s.boot), w)
    ensures var q, t := Pair(n, s.boot), CheckpointStep(s, n, w);
            && (w.Done? ==> Guarded(t, q))
            && (w.Failed? ==> Guarded(t, p))
            && Recoverable(t.a, t.b, if Landed(q, w) then q else p)
  {
    HeldAfter(s, s.next, Pair(n, s.boot), w);
  }

  /** A checkpoint over the row the durable pair is in, after a failed init.  If the write lands on a number
      past the other row, or leaves the row as it was, the newest pair that landed stays recoverable. */
  lemma CheckpointOverDurable(s: Banks, p: Pair, n: u32, w: Write)
    requires Recoverable(s.a, s.b, p) && s.next < 2 && !Guarded(s, p)
    requires CanEnd(Bank(s, s.next), Pair(n, s.boot), w)
    requires if Landed(Pair(n, s.boot), w) then NoNewer(Bank(s, 1 - s.next), Pair(n, s.boot))
             else w.left == Bank(s, s.next)
    ensures var q, t := Pair(n, s.boot), CheckpointStep(s, n, w);
            && (w.Done? ==> Guarded(t, q))
            && (w.Failed? ==> t == s.(seqNo := n))
            && Recoverable(t.a, t.b, if Landed(q, w) then q else p)
  {
    HeldAfter(s, s.next, Pair(n, s.boot), w);
  }

  /** A failed init leaves bank A to be written next, whichever bank was recovered from.  The durable pair is
      in the bank not written next if and only if the boot did not recover from A, or the failed write
      left it in B too. */
  lemma FailedInitExactly(s: Banks, p: Pair, left: Option<Pair>)
    requires Recoverable(s.a, s.b, p) && CanEnd(Bank(s, InitBank(s)), InitPair(s), Failed(left))
    ensures var t := BootStep(s, Failed(left));
            && Recoverable(t.a, t.b, p) && t.boot == Inc32(p.boot) && t.counter == p.seqNo
            && (Guarded(t, p) <==> Choose(s.a, s.b) != 0 || left == Some(p))
  {
    RecoversNewest(s.a, s.b, p);
  }

  /** When a checkpoint after a failed init wrecks the row it was writing, bank A, the next boot goes back to
      what bank B holds, or to nothing; the durable pair survives if and only if B holds it. */
  lemma WreckedCheckpointExactly(s: Banks, p: Pair, left: Option<Pair>, n: u32, w: Write)
    requires Recoverable(s.a, s.b, p) && CanEnd(Bank(s, InitBank(s)), InitPair(s), Failed(left))
    requires w == Failed(None) || w == Lost(None)
    ensures var t := BootStep(s, Failed(left));
            var u := CheckpointStep(t, n, w);
            && Recovered(u.a, u.b) == (if t.b.Some? then t.b.value else Pair(0, 0))
            && (Recoverable(u.a, u.b, p) <==> t.b == Some(p))
            && (t.b == Some(p) <==> Choose(s.a, s.b) != 0 || left == Some(p))
  {
    RecoversNewest(s.a, s.b, p);
  }

  /** The boot counter's wrap: what an init has durably written is what the next boot recovers, exactly
      when the boot count did not wrap to zero. */
  lemma InitDurableExactly(s: Banks, p: Pair)
    requires Recoverable(s.a, s.b, p)
    ensures var t := InitStep(s, Done);
            Recovered(t.a, t.b) == InitPair(s) <==> p.boot != 0xFFFF_FFFF
  {
    RecoversNewest(s.a, s.b, p);
    HeldAfter(s, InitBank(s), InitPair(s), Done);
  }

  // ---------------------------------------------------------------- runs

  /** A number as the code keeps it. */
  function Low32(n: nat): u32 {
    n % WORD
  }

  lemma Low32Steps(n: nat)
    ensures Low32(n + 1) == Inc32(Low32(n))
  {
  }

  lemma Low32Diff(m: nat, n: nat)
    requires m <= n < m + 0x8000_0000
    ensures Diff(Low32(n), Low32(m)) == n - m
  {
  }

  lemma Low32Apart(m: nat, n: nat)
    requires m < n < m + WORD
    ensures Low32(m) != Low32(n)
  {
  }

  /** A number handed out, as the code sees it and as it would be without wraparound. */
  datatype Issue = Issue(pair: Pair, n: nat)

  /** A gateway over many boots.  `newest` is the durable number, `boot` the durable boot count, and `count`
      the next number to issue, the numbers unwrapped; `started` is where this boot began and `top` is above
      every number ever issued. */
  datatype System = System(s: Banks, up: bool, durable: bool, newest: nat, boot: u32, count: nat, started: nat,
                           top: nat, issued: seq<Issue>)

  datatype Event = Boot(w: Write) | Next(w: Write) | PowerLoss

  /** The gateway comes up whether init succeeds or fails. */
  function AfterBoot(y: System, w: Write): System {
    var p, s := InitPair(y.s), BootStep(y.s, w);
    var base := if y.durable then y.newest else 0;
    var top := if base > y.top then base else y.top;
    var z := y.(s := s, up := !w.Lost?, newest := base, count := base, started := base, top := top);
    if Landed(p, w) then z.(durable := true, boot := p.boot) else z
  }

  predicate Marks(y: System) {
    y.s.counter % INTERVAL == 0
  }

  /** The number about to be issued is checkpointed, and the row gets written. */
  predicate Lands(y: System, w: Write) {
    Marks(y) && Landed(Pair(y.s.counter, y.s.boot), w)
  }

  function AfterNext(y: System, w: Write): System
    requires y.s.next < 2
  {
    var x := y.(s := NextStep(y.s, w));
    var z := if Lands(y, w) then x.(newest := y.count, durable := true, boot := y.s.boot) else x;
    if Marks(y) && w.Lost? then z.(up := false)
    else
      var issue := Issue(Pair(y.s.counter, y.s.boot), y.count);
      var top := if y.count + 1 > y.top then y.count + 1 else y.top;
      z.(count := y.count + 1, top := top, issued := y.issued + [issue])
  }

  function Step(y: System, e: Event): System
    requires e.Next? ==> y.s.next < 2
  {
    match e
    case Boot(w) => AfterBoot(y, w)
    case Next(w) => AfterNext(y, w)
    case PowerLoss => y.(up := false)
  }

  function Newest(y: System): Pair {
    Pair(Low32(y.newest), y.boot)
  }

  /** A checkpoint does not wreck the row the durable pair is in.  Only after a failed init does it write
      there at all. */
  predicate Spares(y: System, w: Write) {
    y.durable && y.s.next < 2 && !Guarded(y.s, Newest(y)) && Marks(y) ==>
      if Lands(y, w) then NoNewer(Bank(y.s, 1 - y.s.next), Pair(y.s.counter, y.s.boot))
      else !w.Done? && w.left == Bank(y.s, y.s.next)
  }

  /** Steps the theorems speak about: boots with boot counts left, whatever becomes of their write; numbers
      while the gateway is up, fewer than 2^32 a boot and fewer than 2^31 past the durable one, whose
      checkpoints spare the durable row. */
  predicate Fair(y: System, e: Event) {
    match e
    case Boot(w) => !y.up && y.boot < 0xFFFF_FFFF && CanEnd(Bank(y.s, InitBank(y.s)), InitPair(y.s), w)
    case Next(w) =>
      && y.up && y.s.next < 2 && y.count - y.started < WORD && y.count - y.newest < 0x8000_0000
      && CanEnd(Bank(y.s, y.s.next), Pair(y.s.counter, y.s.boot), w) && Spares(y, w)
    case PowerLoss => true
  }

  /** The boot count of this boot is durable. */
  predicate Registered(y: System) {
    y.durable && y.s.boot == y.boot
  }

  predicate DurableInv(y: System) {
    && (if y.durable then Recoverable(y.s.a, y.s.b, Newest(y))
        else y.s.a == None && y.s.b == None && y.boot == 0 && y.newest == 0)
    && (y.up ==>
          && y.s.next < 2 && y.s.counter == Low32(y.count) && y.newest <= y.count && y.started <= y.count
          && (if Registered(y) then Guarded(y.s, Newest(y)) else y.s.boot == y.boot + 1))
  }

  /** Numbers have been issued under a boot count that is in no row. */
  ghost predicate Loose(y: System) {
    exists i :: 0 <= i < |y.issued| && y.issued[i].pair.boot == y.boot + 1
  }

  ghost predicate IssuedInv(y: System) {
    && (forall i :: 0 <= i < |y.issued| ==> y.issued[i].pair.seqNo == Low32(y.issued[i].n) && y.issued[i].n < y.top)
    && (forall i :: 0 <= i < |y.issued| ==> y.issued[i].pair.boot <= y.boot + 1)
    && (y.up ==> forall i :: 0 <= i < |y.issued| && y.issued[i].pair.boot == y.s.boot ==>
                   y.started <= y.issued[i].n < y.count)
    && (forall i, j :: 0 <= i < j < |y.issued| ==> y.issued[i].pair != y.issued[j].pair)
  }

  /** What is loose began at the durable number. */
  ghost predicate LooseInv(y: System) {
    && (Loose(y) ==> exists i :: 0 <= i < |y.issued| && y.issued[i].pair == Pair(Low32(y.newest), y.boot + 1))
    && (y.up && Registered(y) ==> !Loose(y))
    && (y.up && !Registered(y) ==> y.newest == y.started && (y.count > y.started <==> Loose(y)))
  }

  ghost predicate Inv(y: System) {
    DurableInv(y) && IssuedInv(y) && LooseInv(y)
  }

  lemma NoneRecovered(s: Banks, w: Write)
    requires s.a == None && s.b == None
    requires CanEnd(Bank(s, InitBank(s)), InitPair(s), w)
    ensures InitPair(s) == Pair(0, 1)
    ensures var t := InitStep(s, w);
            && t.seqNo == 0 && t.boot == 1
            && (w.Done? ==> Guarded(t, Pair(0, 1)))
            && (Landed(Pair(0, 1), w) ==> Recoverable(t.a, t.b, Pair(0, 1)))
            && (!Landed(Pair(0, 1), w) ==> t.a == None && t.b == None)
  {
    HeldAfter(s, 1, Pair(0, 1), w);
  }

  lemma BootDurable(y: System, w: Write)
    requires DurableInv(y) && Fair(y, Boot(w))
    ensures DurableInv(AfterBoot(y, w))
    ensures InitPair(y.s) == Pair(Low32(y.newest), y.boot + 1)
  {
    if y.durable {
      InitKeeps(Cold(y.s), Newest(y), w);
    } else {
      NoneRecovered(Cold(y.s), w);
    }
  }

  /** No pair is issued twice as long as the gateway does not come up while there are loose numbers. */
  ghost predicate Safe(y: System, e: Event) {
    e.Boot? && !e.w.Lost? ==> !Loose(y)
  }

  lemma BootInv(y: System, w: Write)
    requires Inv(y) && Fair(y, Boot(w)) && Safe(y, Boot(w))
    ensures Inv(AfterBoot(y, w))
  {
    BootDurable(y, w);
  }

  lemma NextDurable(y: System, w: Write)
    requires DurableInv(y) && Fair(y, Next(w))
    ensures DurableInv(AfterNext(y, w))
  {
    Low32Steps(y.count);
    if Marks(y) {
      Low32Diff(y.newest, y.count);
      MarkDurable(y, w);
    }
  }

  lemma MarkDurable(y: System, w: Write)
    requires DurableInv(y) && Fair(y, Next(w)) && Marks(y)
    requires Diff(y.s.counter, Low32(y.newest)) >= 0 && Low32(y.count + 1) == Inc32(Low32(y.count))
    ensures DurableInv(AfterNext(y, w))
  {
    var t := y.s.(counter := Inc32(y.s.counter));
    if y.durable && Guarded(y.s, Newest(y)) {
      CheckpointKeeps(t, Newest(y), y.s.counter, w);
    } else if y.durable {
      CheckpointOverDurable(t, Newest(y), y.s.counter, w);
    } else {
      HeldAfter(t, t.next, Pair(y.s.counter, t.boot), w);
    }
  }

  /** One more number, within 2^32 of the first of this boot, is different from all before. */
  lemma IssueInv(y: System, z: System)
    requires IssuedInv(y) && y.up && y.started <= y.count < y.started + WORD && y.s.boot <= z.boot + 1
    requires z.issued == y.issued + [Issue(Pair(Low32(y.count), y.s.boot), y.count)]
    requires z.count == y.count + 1 && z.started == y.started && z.s.boot == y.s.boot && y.boot <= z.boot
    requires z.top >= y.top && z.top > y.count
    ensures IssuedInv(z)
  {
    forall i | 0 <= i < |y.issued| ensures y.issued[i].pair != Pair(Low32(y.count), y.s.boot) {
      if y.issued[i].pair.boot == y.s.boot {
        Low32Apart(y.issued[i].n, y.count);
      }
    }
  }

  lemma NextCases(y: System, w: Write)
    requires DurableInv(y) && Fair(y, Next(w))
    ensures var z := AfterNext(y, w);
            && z.s.boot == y.s.boot && z.started == y.started
            && (if Lands(y, w) then z.durable && z.newest == y.count && z.boot == y.s.boot
                else z.durable == y.durable && z.newest == y.newest && z.boot == y.boot)
            && (if z.up then
                  && z.top >= y.top && z.top > y.count && z.count == y.count + 1
                  && z.issued == y.issued + [Issue(Pair(Low32(y.count), y.s.boot), y.count)]
                else Marks(y) && w.Lost? && z.top == y.top && z.count == y.count && z.issued == y.issued)
  {
  }

  lemma NextIssued(y: System, w: Write)
    requires Inv(y) && Fair(y, Next(w))
    ensures IssuedInv(AfterNext(y, w))
  {
    var z := AfterNext(y, w);
    NextCases(y, w);
    if z.up {
      IssueInv(y, z);
    }
  }

  /** A checkpoint that lands leaves nothing loose; otherwise a number issued in a boot that is in no row is. */
  lemma NextLoose(y: System, w: Write)
    requires Inv(y) && Fair(y, Next(w))
    ensures LooseInv(AfterNext(y, w))
    ensures var z := AfterNext(y, w);
            Loose(z) <==> !Lands(y, w) && (Loose(y) || (|z.issued| > |y.issued| && !Registered(y)))
  {
    var z := AfterNext(y, w);
    NextCases(y, w);
    assert forall i :: 0 <= i < |y.issued| ==> z.issued[i] == y.issued[i];
    if z.up && !Lands(y, w) && !Registered(y) {
      assert z.issued[|y.issued|].pair == Pair(Low32(y.count), y.boot + 1);
    }
  }

  lemma StepInv(y: System, e: Event)
    requires Inv(y) && Fair(y, e) && Safe(y, e)
    ensures Inv(Step(y, e))
  {
    match e
    case Boot(w) => BootInv(y, w);
    case Next(w) => NextDurable(y, w); NextIssued(y, w); NextLoose(y, w);
    case PowerLoss =>
  }

  lemma StepDurable(y: System, e: Event)
    requires DurableInv(y) && Fair(y, e)
    ensures DurableInv(Step(y, e))
  {
    match e
    case Boot(w) => BootDurable(y, w);
    case Next(w) => NextDurable(y, w);
    case PowerLoss =>
  }

  predicate FairRun(y: System, es: seq<Event>)
    decreases |es|
  {
    es != [] ==> Fair(y, es[0]) && FairRun(Step(y, es[0]), es[1..])
  }

  ghost predicate SafeRun(y: System, es: seq<Event>)
    requires FairRun(y, es)
    decreases |es|
  {
    es != [] ==> Safe(y, es[0]) && SafeRun(Step(y, es[0]), es[1..])
  }

  function Run(y: System, es: seq<Event>): System
    requires FairRun(y, es)
    decreases |es|
  {
    if es == [] then y else Run(Step(y, es[0]), es[1..])
  }

  /** A gateway that has never booted, on rows that hold nothing. */
  predicate Fresh(y: System) {
    && y.s.a == None && y.s.b == None
    && !y.up && !y.durable && y.newest == 0 && y.boot == 0 && y.top == 0 && y.issued == []
  }

  lemma {:induction false} RunInv(y: System, es: seq<Event>)
    requires Inv(y) && FairRun(y, es) && SafeRun(y, es)
    ensures Inv(Run(y, es))
    decreases |es|
  {
    if es != [] {
      StepInv(y, es[0]);
      RunInv(Step(y, es[0]), es[1..]);
    }
  }

  lemma {:induction false} RunDurable(y: System, es: seq<Event>)
    requires DurableInv(y) && FairRun(y, es)
    ensures DurableInv(Run(y, es))
    decreases |es|
  {
    if es != [] {
      StepDurable(y, es[0]);
      RunDurable(Step(y, es[0]), es[1..]);
    }
  }

  /** CRASH SAFETY.  At any point of any run, failed inits included, a boot recovers exactly the newest durable
      pair; and once the boot count of this boot is durable, that pair is in the bank not written next. */
  lemma NextBootExact(y: System, es: seq<Event>)
    requires Fresh(y) && FairRun(y, es)
    ensures var z := Run(y, es);
            && Recovered(z.s.a, z.s.b) == (if z.durable then Newest(z) else Pair(0, 0))
            && (z.up ==> z.s.counter == Low32(z.count))
            && (z.up ==> if Registered(z) then Guarded(z.s, Newest(z)) else z.s.boot == z.boot + 1)
  {
    RunDurable(y, es);
    var z := Run(y, es);
    if z.durable {
      RecoversNewest(z.s.a, z.s.b, Newest(z));
    }
  }

  /** UNIQUENESS.  Across all boots and crashes no (boot count, number) pair is issued twice, unless the gateway
      comes up while there are numbers issued under a boot count that is in no row. */
  lemma NeverIssuedTwice(y: System, es: seq<Event>)
    requires Fresh(y) && FairRun(y, es) && SafeRun(y, es)
    ensures var issued := Run(y, es).issued;
            forall i, j :: 0 <= i < j < |issued| ==> issued[i].pair != issued[j].pair
  {
    RunInv(y, es);
  }

  /** A run in which init never fails has no such numbers. */
  ghost predicate Firm(y: System) {
    (y.up ==> Registered(y)) && !Loose(y)
  }

  lemma StepFirm(y: System, e: Event)
    requires Inv(y) && Firm(y) && Fair(y, e) && (e.Boot? ==> !e.w.Failed?)
    ensures Safe(y, e) && Firm(Step(y, e))
  {
    match e
    case Boot(w) => BootDurable(y, w);
    case Next(w) => NextLoose(y, w); NextCases(y, w);
    case PowerLoss =>
  }

  lemma {:induction false} SafeWithoutFailedInit(y: System, es: seq<Event>)
    requires Inv(y) && Firm(y) && FairRun(y, es)
    requires forall i :: 0 <= i < |es| && es[i].Boot? ==> !es[i].w.Failed?
    ensures SafeRun(y, es)
    decreases |es|
  {
    if es != [] {
      StepFirm(y, es[0]);
      StepInv(y, es[0]);
      SafeWithoutFailedInit(Step(y, es[0]), es[1..]);
    }
  }

  lemma FreshFirm(y: System)
    requires Fresh(y)
    ensures Inv(y) && Firm(y)
  {
  }

  /** REISSUE, EXACTLY.  After any run that has issued no pair twice, let the gateway come up and issue a number.
      It has been issued before, with its boot count, if and only if there were loose numbers. */
  lemma IssuedAgainExactly(y: System, es: seq<Event>, x: System, w: Write, b: System, w': Write) returns (z: System)
    requires Fresh(y) && FairRun(y, es) && SafeRun(y, es) && x == Run(y, es)
    requires Fair(x, Boot(w)) && !w.Lost? && b == AfterBoot(x, w)
    requires Fair(b, Next(w'))
    ensures z == AfterNext(b, w')
    ensures z.up ==> |z.issued| == |x.issued| + 1
    ensures z.up ==> (Loose(x) <==> exists i :: 0 <= i < |x.issued| && x.issued[i].pair == z.issued[|x.issued|].pair)
  {
    RunInv(y, es);
    BootStarts(x, w, b);
    z := NumberIssued(b, w');
    LooseBegins(x);
  }

  /** A boot starts from the durable number, under the next boot count. */
  lemma BootStarts(x: System, w: Write, b: System)
    requires DurableInv(x) && Fair(x, Boot(w)) && b == AfterBoot(x, w)
    ensures DurableInv(b) && b.issued == x.issued && b.count == x.newest && b.s.boot == x.boot + 1
  {
    BootDurable(x, w);
  }

  lemma NumberIssued(b: System, w: Write) returns (z: System)
    requires DurableInv(b) && Fair(b, Next(w))
    ensures z == AfterNext(b, w)
    ensures z.up ==> z.issued == b.issued + [Issue(Pair(Low32(b.count), b.s.boot), b.count)]
  {
    NextCases(b, w);
    z := AfterNext(b, w);
  }

  lemma LooseBegins(x: System)
    requires LooseInv(x) && x.boot < 0xFFFF_FFFF
    ensures Loose(x) <==> exists i :: 0 <= i < |x.issued| && x.issued[i].pair == Pair(Low32(x.newest), x.boot + 1)
  {
  }

  /** Some checkpoint of a stretch of numbers lands. */
  predicate AnyLands(y: System, es: seq<Event>)
    requires FairRun(y, es)
    decreases |es|
  {
    es != [] && ((es[0].Next? && Lands(y, es[0].w)) || AnyLands(Step(y, es[0]), es[1..]))
  }

  predicate Numbers(es: seq<Event>) {
    forall i :: 0 <= i < |es| ==> es[i].Next?
  }

  lemma {:induction false} RegisteredStays(y: System, es: seq<Event>)
    requires Inv(y) && !Loose(y) && (y.up ==> Registered(y)) && FairRun(y, es) && Numbers(es)
    ensures !Loose(Run(y, es))
    decreases |es|
  {
    if es != [] {
      var z := AfterNext(y, es[0].w);
      NextLoose(y, es[0].w);
      NextCases(y, es[0].w);
      StepInv(y, es[0]);
      RegisteredStays(z, es[1..]);
    }
  }

  lemma {:induction false} UnregisteredRun(y: System, es: seq<Event>)
    requires Inv(y) && (y.up ==> !Registered(y)) && FairRun(y, es) && Numbers(es)
    ensures var z := Run(y, es);
            && |z.issued| >= |y.issued|
            && (Loose(z) <==> !AnyLands(y, es) && (Loose(y) || |z.issued| > |y.issued|))
    decreases |es|
  {
    if es != [] {
      var z := AfterNext(y, es[0].w);
      NextLoose(y, es[0].w);
      NextCases(y, es[0].w);
      StepInv(y, es[0]);
      if Lands(y, es[0].w) {
        RegisteredStays(z, es[1..]);
        IssuedGrows(z, es[1..]);
      } else {
        UnregisteredRun(z, es[1..]);
      }
    }
  }

  lemma {:induction false} IssuedGrows(y: System, es: seq<Event>)
    requires FairRun(y, es)
    ensures |Run(y, es).issued| >= |y.issued|
    decreases |es|
  {
    if es != [] {
      IssuedGrows(Step(y, es[0]), es[1..]);
    }
  }

  /** LOOSE, EXACTLY.  The gateway ignores a failed init.  The numbers it then issues are loose if and only if
      there are any and no checkpoint of that boot lands. */
  lemma FailedInitLoosens(y: System, es: seq<Event>, left: Option<Pair>, more: seq<Event>)
    returns (x: System, z: System)
    requires Fresh(y) && FairRun(y, es) && SafeRun(y, es) && !Loose(Run(y, es))
    requires Fair(Run(y, es), Boot(Failed(left)))
    requires FairRun(AfterBoot(Run(y, es), Failed(left)), more) && Numbers(more)
    ensures x == AfterBoot(Run(y, es), Failed(left)) && z == Run(x, more)
    ensures Loose(z) <==> |z.issued| > |x.issued| && !AnyLands(x, more)
  {
    RunInv(y, es);
    BootInv(Run(y, es), Failed(left));
    x := AfterBoot(Run(y, es), Failed(left));
    z := Run(x, more);
    UnregisteredRun(x, more);
  }

  /** A failed init and a failed checkpoint of its first number are enough. */
  lemma LooseReached(y: System)
    requires Fresh(y)
    ensures var x := AfterBoot(y, Failed(None));
            && Fair(y, Boot(Failed(None))) && Fair(x, Next(Failed(None)))
            && Loose(AfterNext(x, Failed(None)))
  {
    var x := AfterBoot(y, Failed(None));
    FreshFirm(y);
    BootDurable(y, Failed(None));
    var z := AfterNext(x, Failed(None));
    assert z.issued[0].pair.boot == z.boot + 1;
  }

  // ---------------------------------------------------------------- how much a reboot issues again

  predicate Mark(n: nat) {
    Low32(n) % INTERVAL == 0
  }

  /** No number that is checkpointed when issued lies beyond the durable one. */
  ghost predicate Tight(y: System) {
    && (if y.durable then forall m :: y.newest < m < y.top ==> !Mark(m) else y.top == 0)
    && (y.up ==> Registered(y) && y.count <= y.top)
  }

  predicate Prompt(e: Event) {
    e.Boot? || e.Next? ==> !e.w.Failed?
  }

  lemma StepTight(y: System, e: Event)
    requires DurableInv(y) && Fair(y, e) && Prompt(e) && Tight(y)
    ensures Tight(Step(y, e))
  {
    if e.Next? {
      NextTop(y, e.w);
    }
  }

  lemma NextTop(y: System, w: Write)
    requires DurableInv(y) && Registered(y) && Fair(y, Next(w)) && !w.Failed?
    ensures var z := AfterNext(y, w);
            && z.durable && y.newest <= y.count && z.s.boot == z.boot
            && (z.newest == y.newest || z.newest == y.count)
            && (z.top == y.top || z.top == y.count + 1)
            && (z.top == y.top || z.newest == y.count || !Mark(y.count))
  {
  }

  predicate AllPrompt(es: seq<Event>) {
    forall i :: 0 <= i < |es| ==> Prompt(es[i])
  }

  lemma {:induction false} RunTight(y: System, es: seq<Event>)
    requires DurableInv(y) && FairRun(y, es) && Tight(y) && AllPrompt(es)
    ensures Tight(Run(y, es))
    decreases |es|
  {
    if es != [] {
      StepTight(y, es[0]);
      StepDurable(y, es[0]);
      RunTight(Step(y, es[0]), es[1..]);
    }
  }

  lemma Low32Add(n: nat, k: nat)
    requires k <= INTERVAL
    ensures Low32(n + k) == if Low32(n) + k < WORD then Low32(n) + k else Low32(n) + k - WORD
  {
  }

  lemma MarkWithin(n: nat) returns (m: nat)
    ensures n < m <= n + INTERVAL && Mark(m)
  {
    var x := Low32(n);
    var k := if x < 4294967200 then INTERVAL - x % INTERVAL else WORD - x;
    Low32Add(n, k);
    m := n + k;
  }

  /** Without failed writes, at any point of any run, the durable number is at most 100 behind. */
  lemma PromptLag(y: System, es: seq<Event>)
    requires Fresh(y) && FairRun(y, es) && AllPrompt(es)
    ensures var z := Run(y, es); z.up ==> z.count - z.newest <= INTERVAL
  {
    RunDurable(y, es);
    RunTight(y, es);
    var m := MarkWithin(Run(y, es).newest);
  }

  /** REISSUE.  When writes complete or are cut short, a boot starts at most 100 below the end of all the
      numbers ever issued. */
  lemma ReissuesAtMost100(y: System, es: seq<Event>, w: Write)
    requires Fresh(y) && FairRun(y, es) && AllPrompt(es)
    requires Fair(Run(y, es), Boot(w)) && w.Done?
    ensures var z := AfterBoot(Run(y, es), w);
            && z.s.counter == Low32(z.count)
            && forall i :: 0 <= i < |z.issued| ==>
                 z.issued[i].n < z.count + INTERVAL && z.issued[i].pair.seqNo == Low32(z.issued[i].n)
  {
    var x := Run(y, es);
    RunTight(y, es);
    RunDurable(y, es);
    FreshFirm(y);
    SafeWithoutFailedInit(y, es);
    RunInv(y, es);
    BootDurable(x, w);
    var m := MarkWithin(x.newest);
  }
}

/** Which samples are published (publish_filter.c) and what poll_telemetry and poll_status of
    pmbus_poll_task.c do with the answer.  Heartbeats are given in ticks. */
module PublishFilter {
  import opened Words
  import opened Records

  // ---------------------------------------------------------------- samples and settings

  const FIELDS: nat := 6
  const VOUT: nat := 1        // the one unsigned field

  /** A telemetry sample: VIN, VOUT, IIN, IOUT, TEMP1, POUT, valid where the mask has bit 0 to 5. */
  datatype Telemetry = Telemetry(mask: byte, vals: seq<int>)

  predicate Typed(t: Telemetry) {
    && |t.vals| == FIELDS
    && forall i :: 0 <= i < FIELDS ==>
         if i == VOUT then 0 <= t.vals[i] < WORD else -0x8000_0000 <= t.vals[i] < 0x8000_0000
  }

  datatype Status = Status(mask: byte, word: u16, vout: byte, iout: byte, temp: byte)

  /** Settings of a device or of the gateway; a device setting of 0 means the gateway's. */
  datatype Settings = Settings(telemetryHeartbeat: u32, statusHeartbeat: u32, deadbands: seq<u32>)

  datatype Config = Config(telemetryFilter: bool, statusFilter: bool, statusInitial: bool, gateway: Settings,
                           device: Settings)

  predicate Complete(c: Config) {
    |c.gateway.deadbands| == FIELDS && |c.device.deadbands| == FIELDS
  }

  /** resolve_u32 */
  function Resolve(device: u32, gateway: u32): u32 {
    if device != 0 then device else gateway
  }

  function Deadband(c: Config, i: nat): u32
    requires Complete(c) && i < FIELDS
  {
    Resolve(c.device.deadbands[i], c.gateway.deadbands[i])
  }

  // ---------------------------------------------------------------- deadbands

  /** exceeds_deadband_s: the difference is taken in 32 bits. */
  predicate ExceedsSigned(a: i32, b: i32, db: u32) {
    var d := if a - b >= 0x8000_0000 then a - b - WORD else if a - b < -0x8000_0000 then a - b + WORD else a - b;
    (if d >= 0 then d else -d) >= db
  }

  /** exceeds_deadband_u */
  predicate ExceedsUnsigned(a: u32, b: u32, db: u32) {
    (if a >= b then a - b else b - a) >= db
  }

  function Distance(a: int, b: int): nat {
    if a >= b then a - b else b - a
  }

  /** A signed change is inside the deadband exactly when it is smaller, or so large that the
      subtraction wraps around to a small one. */
  lemma SignedDeadbandExactly(a: i32, b: i32, db: u32)
    ensures !ExceedsSigned(a, b, db)
            <==> Distance(a, b) < db || (Distance(a, b) > 0x8000_0000 && WORD - Distance(a, b) < db)
  {
  }

  /** Bit i of a mask. */
  predicate Valid(mask: byte, i: nat) {
    var weight := if i == 0 then 1 else if i == 1 then 2 else if i == 2 then 4
                  else if i == 3 then 8 else if i == 4 then 16 else 32;
    mask / weight % 2 == 1
  }

  predicate Moved(c: Config, t: Telemetry, last: Telemetry, i: nat)
    requires Complete(c) && Typed(t) && Typed(last) && i < FIELDS
  {
    && Valid(t.mask, i) && Valid(last.mask, i)
    && if i == VOUT then ExceedsUnsigned(t.vals[i], last.vals[i], Deadband(c, i))
         else ExceedsSigned(t.vals[i], last.vals[i], Deadband(c, i))
  }

  // ---------------------------------------------------------------- decisions

  /** telem_filter_state_t and status_filter_state_t */
  datatype Baseline<T> = NoBaseline | Baseline(tick: u32, last: T)

  predicate HeartbeatDue(now: u32, last: u32, heartbeat: u32) {
    Diff(now, last) >= Diff(heartbeat, 0)
  }

  /** pf_should_emit_telemetry */
  predicate ShouldEmitTelemetry(c: Config, b: Baseline<Telemetry>, t: Telemetry, now: u32)
    requires Complete(c) && Typed(t) && (b.Baseline? ==> Typed(b.last))
  {
    || !c.telemetryFilter
    || b.NoBaseline?
    || t.mask != b.last.mask
    || HeartbeatDue(now, b.tick, Resolve(c.device.telemetryHeartbeat, c.gateway.telemetryHeartbeat))
    || Moved(c, t, b.last, 0) || Moved(c, t, b.last, 1) || Moved(c, t, b.last, 2)
    || Moved(c, t, b.last, 3) || Moved(c, t, b.last, 4) || Moved(c, t, b.last, 5)
  }

  /** pf_should_emit_status */
  predicate ShouldEmitStatus(c: Config, b: Baseline<Status>, s: Status, now: u32) {
    if !c.statusFilter then true
    else if b.NoBaseline? then c.statusInitial
    else
      var hb := Resolve(c.device.statusHeartbeat, c.gateway.statusHeartbeat);
      s != b.last || (hb > 0 && HeartbeatDue(now, b.tick, hb))
  }

  /** Closeness a reader of the published samples can rely on: every field valid in both is strictly
      inside its deadband, or has jumped by so much that the 32-bit difference came out small. */
  predicate Close(c: Config, t: Telemetry, last: Telemetry)
    requires Complete(c) && Typed(t) && Typed(last)
  {
    && t.mask == last.mask
    && forall i :: 0 <= i < FIELDS && Valid(t.mask, i) ==>
         || Distance(t.vals[i], last.vals[i]) < Deadband(c, i)
         || (i != VOUT && Distance(t.vals[i], last.vals[i]) > WORD - Deadband(c, i))
  }

  lemma SuppressedIsClose(c: Config, b: Baseline<Telemetry>, t: Telemetry, now: u32)
    requires Complete(c) && Typed(t) && (b.Baseline? ==> Typed(b.last)) && !ShouldEmitTelemetry(c, b, t, now)
    ensures b.Baseline? && Close(c, t, b.last)
    ensures !HeartbeatDue(now, b.tick, Resolve(c.device.telemetryHeartbeat, c.gateway.telemetryHeartbeat))
  {
    forall i | 0 <= i < FIELDS && Valid(t.mask, i)
      ensures Distance(t.vals[i], b.last.vals[i]) < Deadband(c, i)
              || (i != VOUT && Distance(t.vals[i], b.last.vals[i]) > WORD - Deadband(c, i))
    {
      assert !Moved(c, t, b.last, i);
      if i != VOUT {
        SignedDeadbandExactly(t.vals[i], b.last.vals[i], Deadband(c, i));
      }
    }
  }

  // ---------------------------------------------------------------- polling one device

  const OFFLINE_FAIL_THRESHOLD: nat := 3
  const MAX_FAILS: nat := 0xFFFF

  /** device_state_t, as far as publishing goes. */
  datatype Device = Device(online: bool, fails: nat, telemetry: Baseline<Telemetry>, status: Baseline<Status>)

  datatype Decision = Skipped | Suppressed | Admitted | Dropped

  predicate Sound(d: Device) {
    d.telemetry.Baseline? ==> Typed(d.telemetry.last)
  }

  /** check_online_transition */
  function Switched(d: Device, success: bool): Device {
    if success && !d.online then d.(online := true, telemetry := NoBaseline, status := NoBaseline)
    else if !success && d.online && d.fails >= OFFLINE_FAIL_THRESHOLD then d.(online := false)
    else d
  }

  /** The failure counter and check_online_transition. */
  function Transition(d: Device, anyOk: bool): Device {
    Switched(d.(fails := if anyOk then 0 else if d.fails < MAX_FAILS then d.fails + 1 else d.fails), anyOk)
  }

  /** The end of poll_telemetry; `room` says whether the queue or the rescue ring took the record. */
  function DecideTelemetry(c: Config, d: Device, anyOk: bool, t: Telemetry, now: u32, room: bool): Decision
    requires Complete(c) && Typed(t) && Sound(d)
  {
    if !anyOk then Skipped
    else if !ShouldEmitTelemetry(c, Transition(d, anyOk).telemetry, t, now) then Suppressed
    else if room then Admitted else Dropped
  }

  function AfterTelemetry(c: Config, d: Device, anyOk: bool, t: Telemetry, now: u32, room: bool): (e: Device)
    requires Complete(c) && Typed(t) && Sound(d)
    ensures Sound(e)
  {
    var e := Transition(d, anyOk);
    if DecideTelemetry(c, d, anyOk, t, now, room) == Admitted then e.(telemetry := Baseline(now, t)) else e
  }

  /** The end of poll_status. */
  function DecideStatus(c: Config, d: Device, s: Status, now: u32, room: bool): Decision {
    if s.mask == 0 then Skipped
    else if !ShouldEmitStatus(c, d.status, s, now) then Suppressed
    else if room then Admitted else Dropped
  }

  /** A suppressed sample becomes the baseline only when there was none. */
  predicate Rebases(c: Config, d: Device, s: Status, now: u32, room: bool) {
    var decision := DecideStatus(c, d, s, now, room);
    decision == Admitted || (decision == Suppressed && d.status.NoBaseline?)
  }

  function AfterStatus(c: Config, d: Device, s: Status, now: u32, room: bool): Device {
    if Rebases(c, d, s, now, room) then d.(status := Baseline(now, s)) else d
  }

  class DevicePoller {
    const config: Config
    var online: bool
    var fails: nat
    var telemetry: Baseline<Telemetry>
    var status: Baseline<Status>

    function State(): Device
      reads this
    {
      Device(online, fails, telemetry, status)
    }

    constructor (config: Config)
      ensures this.config == config && State() == Device(false, 0, NoBaseline, NoBaseline)
    {
      this.config := config;
      online, fails, telemetry, status := false, 0, NoBaseline, NoBaseline;
    }

    method CheckOnlineTransition(success: bool)
      modifies this
      ensures State() == Switched(old(State()), success)
    {
      if success && !online {
        online := true;
        telemetry := NoBaseline;
        status := NoBaseline;
      } else if !success && online && fails >= OFFLINE_FAIL_THRESHOLD {
        online := false;
      }
    }

    /** poll_telemetry after the bus transfers */
    method OfferTelemetry(anyOk: bool, t: Telemetry, now: u32, room: bool) returns (d: Decision)
      requires Complete(config) && Typed(t) && Sound(State())
      modifies this
      ensures d == DecideTelemetry(config, old(State()), anyOk, t, now, room)
      ensures State() == AfterTelemetry(config, old(State()), anyOk, t, now, room)
    {
      if anyOk {
        fails := 0;
      } else if fails < MAX_FAILS {
        fails := fails + 1;
      }
      CheckOnlineTransition(anyOk);
      if !anyOk {
        return Skipped;
      }
      if !ShouldEmitTelemetry(config, telemetry, t, now) {
        return Suppressed;
      }
      if !room {
        return Dropped;
      }
      telemetry := Baseline(now, t);
      return Admitted;
    }

    /** poll_status after the bus transfers */
    method OfferStatus(s: Status, now: u32, room: bool) returns (d: Decision)
      modifies this
      ensures d == DecideStatus(config, old(State()), s, now, room)
      ensures State() == AfterStatus(config, old(State()), s, now, room)
    {
      if s.mask == 0 {
        return Skipped;
      }
      if !ShouldEmitStatus(config, status, s, now) {
        if status.NoBaseline? {
          status := Baseline(now, s);
        }
        return Suppressed;
      }
      if !room {
        return Dropped;
      }
      status := Baseline(now, s);
      return Admitted;
    }
  }

  // ---------------------------------------------------------------- runs

  datatype Poll = PollTelemetry(anyOk: bool, sample: Telemetry, now: u32, room: bool) | PollStatus(word: Status,
                                now: u32, room: bool)

  predicate Readings(polls: seq<Poll>) {
    forall i :: 0 <= i < |polls| && polls[i].PollTelemetry? ==> Typed(polls[i].sample)
  }

  /** The device after the first `n` polls. */
  function After(c: Config, polls: seq<Poll>, n: nat): (d: Device)
    requires Complete(c) && Readings(polls) && n <= |polls|
    ensures Sound(d)
  {
    if n == 0 then Device(false, 0, NoBaseline, NoBaseline)
    else
      var d := After(c, polls, n - 1);
      match polls[n - 1]
      case PollTelemetry(anyOk, t, now, room) => AfterTelemetry(c, d, anyOk, t, now, room)
      case PollStatus(s, now, room) => AfterStatus(c, d, s, now, room)
  }

  /** What became of poll k. */
  function Outcome(c: Config, polls: seq<Poll>, k: nat): Decision
    requires Complete(c) && Readings(polls) && k < |polls|
  {
    var d := After(c, polls, k);
    match polls[k]
    case PollTelemetry(anyOk, t, now, room) => DecideTelemetry(c, d, anyOk, t, now, room)
    case PollStatus(s, now, room) => DecideStatus(c, d, s, now, room)
  }

  /** How many telemetry polls have failed since the last that succeeded, or since the start. */
  function FailuresSince(polls: seq<Poll>, n: nat): nat
    requires n <= |polls|
  {
    if n == 0 then 0
    else if polls[n - 1].PollTelemetry? then (if polls[n - 1].anyOk then 0 else 1 + FailuresSince(polls, n - 1))
    else FailuresSince(polls, n - 1)
  }

  predicate EverSucceeded(polls: seq<Poll>, n: nat)
    requires n <= |polls|
  {
    exists j :: 0 <= j < n && polls[j].PollTelemetry? && polls[j].anyOk
  }

  /** ONLINE, EXACTLY.  After any run of polls a device is online if and only if a telemetry poll has succeeded and
      fewer than three have failed since. */
  lemma {:induction false} OnlineExactly(c: Config, polls: seq<Poll>, n: nat)
    requires Complete(c) && Readings(polls) && n <= |polls|
    ensures var d, f := After(c, polls, n), FailuresSince(polls, n);
            && (d.online <==> EverSucceeded(polls, n) && f < OFFLINE_FAIL_THRESHOLD)
            && d.fails == if f < MAX_FAILS then f else MAX_FAILS
    decreases n
  {
    if n > 0 {
      OnlineExactly(c, polls, n - 1);
    }
  }

  /** RECONNECT.  The first telemetry sample a device delivers, and the first after three failures in a row, is
      never suppressed: it is admitted when there is room. */
  lemma ReconnectAdmits(c: Config, polls: seq<Poll>, k: nat)
    requires Complete(c) && Readings(polls) && k < |polls| && polls[k].PollTelemetry? && polls[k].anyOk
    requires !EverSucceeded(polls, k) || FailuresSince(polls, k) >= OFFLINE_FAIL_THRESHOLD
    ensures Outcome(c, polls, k) == if polls[k].room then Admitted else Dropped
    ensures After(c, polls, k + 1).status == NoBaseline
  {
    OnlineExactly(c, polls, k);
  }

  predicate AdmittedTelemetry(c: Config, polls: seq<Poll>, k: nat)
    requires Complete(c) && Readings(polls) && k < |polls|
  {
    polls[k].PollTelemetry? && Outcome(c, polls, k) == Admitted
  }

  /** The telemetry baseline is the last telemetry sample admitted. */
  lemma {:induction false} TelemetryBaseline(c: Config, polls: seq<Poll>, n: nat) returns (j: nat)
    requires Complete(c) && Readings(polls) && n <= |polls| && After(c, polls, n).telemetry.Baseline?
    ensures j < n && AdmittedTelemetry(c, polls, j)
    ensures After(c, polls, n).telemetry == Baseline(polls[j].now, polls[j].sample)
    ensures forall m :: j < m < n ==> !AdmittedTelemetry(c, polls, m)
    decreases n
  {
    if AdmittedTelemetry(c, polls, n - 1) {
      j := n - 1;
    } else {
      j := TelemetryBaseline(c, polls, n - 1);
    }
  }

  /** ACCURACY.  A suppressed telemetry sample has the valid mask of the last admitted one, is
      strictly inside its deadbands, and comes before its heartbeat, over any run of polls,
      reconnections and refused records. */
  lemma SuppressedTelemetryAccurate(c: Config, polls: seq<Poll>, k: nat) returns (j: nat)
    requires Complete(c) && Readings(polls) && k < |polls| && polls[k].PollTelemetry?
    requires Outcome(c, polls, k) == Suppressed
    ensures j < k && AdmittedTelemetry(c, polls, j) && (forall m :: j < m < k ==> !AdmittedTelemetry(c, polls, m))
    ensures Close(c, polls[k].sample, polls[j].sample)
    ensures !HeartbeatDue(polls[k].now, polls[j].now,
            Resolve(c.device.telemetryHeartbeat, c.gateway.telemetryHeartbeat))
  {
    var d := Transition(After(c, polls, k), polls[k].anyOk);
    SuppressedIsClose(c, d.telemetry, polls[k].sample, polls[k].now);
    j := TelemetryBaseline(c, polls, k);
  }

  predicate Rebased(c: Config, polls: seq<Poll>, k: nat)
    requires Complete(c) && Readings(polls) && k < |polls|
  {
    polls[k].PollStatus? && Rebases(c, After(c, polls, k), polls[k].word, polls[k].now, polls[k].room)
  }

  lemma {:induction false} StatusBaseline(c: Config, polls: seq<Poll>, n: nat) returns (j: nat)
    requires Complete(c) && Readings(polls) && n <= |polls| && After(c, polls, n).status.Baseline?
    ensures j < n && Rebased(c, polls, j) && After(c, polls, n).status == Baseline(polls[j].now, polls[j].word)
    ensures forall m :: j < m < n ==> !Rebased(c, polls, m)
    decreases n
  {
    if Rebased(c, polls, n - 1) {
      j := n - 1;
    } else {
      j := StatusBaseline(c, polls, n - 1);
    }
  }

  /** A suppressed status sample is the first one since the device came online, where the
      configuration suppresses it, or equals the last baseline in mask and every register. */
  lemma SuppressedStatusUnchanged(c: Config, polls: seq<Poll>, k: nat) returns (j: nat)
    requires Complete(c) && Readings(polls) && k < |polls| && polls[k].PollStatus? && Outcome(c, polls, k) == Suppressed
    ensures After(c, polls, k).status.NoBaseline? ==> !c.statusInitial
    ensures After(c, polls, k).status.Baseline? ==>
              j < k && Rebased(c, polls, j) && (forall m :: j < m < k ==> !Rebased(c, polls, m))
                  && polls[k].word == polls[j].word
  {
    j := 0;
    if After(c, polls, k).status.Baseline? {
      j := StatusBaseline(c, polls, k);
    }
  }
}

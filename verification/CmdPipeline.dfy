/** The remote command pipeline as a transition system of two tasks: the MQTT task parses, deduplicates and
    answers (mqtt_gw_task.c), the poll task executes (pmbus_poll_task.c).  A broker that redelivers
    a QoS 1 message (section 4.3.2 of MQTT Version 3.1.1) must not get a command executed again. */
module CmdPipeline {
  import opened Words
  import opened Records
  import opened CmdHandler

  /** Statuses below 100 come from an execution, the others from the command layer. */
  const COMMAND_STATUS: byte := 100
  const STATUS_QUEUE_FULL: byte := 103

  /** What cmd_handler_parse makes of a raw message. */
  datatype Parsed = Unreadable | Malformed(id: Id, status: byte) | Request(id: Id)

  datatype Pipe = Pipe(requests: seq<Id>, executing: Option<Id>, responses: seq<Response>, pending: Option<Response>,
                       tracker: seq<Id>, cache: seq<Response>)

  /** Steps of the poll task, then of the MQTT task with the outcome of its publish. */
  datatype Step =
    | Take
    | Finish(status: byte)
    | Retry(published: bool)
    | Answer(published: bool)
    | Raw(parsed: Parsed, published: bool)

  predicate Enabled(s: Pipe, step: Step) {
    match step
    case Take => s.executing == None && s.requests != []
    case Finish(status) => s.executing.Some? && status < COMMAND_STATUS
    case Retry(_) => s.pending.Some?
    case Answer(_) => s.pending == None && s.responses != []
    case Raw(parsed, _) => s.pending == None && (parsed.Malformed? ==> parsed.status >= COMMAND_STATUS)
  }

  // ---------------------------------------------------------------- the steps

  function Ids(rs: seq<Response>): (ids: seq<Id>)
    ensures |ids| == |rs| && forall i :: 0 <= i < |rs| ==> ids[i] == rs[i].id
  {
    seq(|rs|, i requires 0 <= i < |rs| => rs[i].id)
  }

  predicate Cached(s: Pipe, id: Id) {
    id != "" && id in Ids(s.cache)
  }

  /** A response published: the tracker forgets its id, the cache keeps it. */
  function Settled(s: Pipe, r: Response): Pipe {
    s.(tracker := WithoutNewest(s.tracker, r.id), cache := Remembered(s.cache, r))
  }

  /** An error response to a message that is not queued. */
  function Replied(s: Pipe, r: Response, published: bool): Pipe {
    if published then s.(cache := Remembered(s.cache, r)) else s.(pending := Some(r))
  }

  /** A valid request, in the order of the code's checks: cache, tracker, tracker room, queue room. */
  function Admit(s: Pipe, id: Id, published: bool): Pipe {
    if Cached(s, id) then s
    else if id != "" && id in s.tracker then s
    else if id == "" || |s.tracker| >= INFLIGHT_DEPTH then Replied(s, Response(id, STATUS_QUEUE_FULL), published)
    else if |s.requests| >= QUEUE_DEPTH then
      Replied(s.(tracker := WithoutNewest(s.tracker + [id], id)), Response(id, STATUS_QUEUE_FULL), published)
    else s.(tracker := s.tracker + [id], requests := s.requests + [id])
  }

  function After(s: Pipe, step: Step): Pipe
    requires Enabled(s, step)
  {
    match step
    case Take => s.(executing := Some(s.requests[0]), requests := s.requests[1..])
    case Finish(status) =>
      var id, t := s.executing.value, s.(executing := None);
      if |s.responses| < QUEUE_DEPTH then t.(responses := s.responses + [Response(id, status)])
      else t.(tracker := WithoutNewest(s.tracker, id))
    case Retry(published) =>
      if published then Settled(s, s.pending.value).(pending := None) else s
    case Answer(published) =>
      var r, t := s.responses[0], s.(responses := s.responses[1..]);
      if published then Settled(t, r) else t.(pending := Some(r))
    case Raw(parsed, published) =>
      match parsed
      case Unreadable => s
      case Malformed(id, status) => Replied(s, Response(id, status), published)
      case Request(id) => Admit(s, id, published)
  }

  // ---------------------------------------------------------------- what every step keeps

  function Parked(s: Pipe): seq<Id> {
    if s.pending.Some? && s.pending.value.status < COMMAND_STATUS then [s.pending.value.id] else []
  }

  function Executing(s: Pipe): seq<Id> {
    if s.executing.Some? then [s.executing.value] else []
  }

  /** The ids of all commands accepted and not yet answered. */
  function InPipeline(s: Pipe): seq<Id> {
    s.requests + (Executing(s) + (Ids(s.responses) + Parked(s)))
  }

  predicate Bounded(s: Pipe) {
    && |s.requests| <= QUEUE_DEPTH && |s.responses| <= QUEUE_DEPTH
    && |s.cache| <= CACHE_DEPTH && |s.tracker| <= INFLIGHT_DEPTH
    && (forall i :: 0 <= i < |s.responses| ==> s.responses[i].status < COMMAND_STATUS)
  }

  /** The tracker holds exactly these ids, each once. */
  ghost predicate Tracks(tracker: seq<Id>, ids: seq<Id>) {
    Sealed(3, tracker, ids)
  }

  ghost predicate Sealed(n: nat, tracker: seq<Id>, ids: seq<Id>)
    decreases n, tracker
  {
    if n > 0 then Sealed(n - 1, tracker, ids) else SameIds(tracker, ids)
  }

  ghost predicate SameIds(tracker: seq<Id>, ids: seq<Id>) {
    multiset(tracker) == multiset(ids) && "" !in tracker && forall id :: multiset(tracker)[id] <= 1
  }

  lemma Open(tracker: seq<Id>, ids: seq<Id>)
    requires Tracks(tracker, ids)
    ensures SameIds(tracker, ids)
  {
    assert Sealed(2, tracker, ids);
    assert Sealed(1, tracker, ids);
    assert Sealed(0, tracker, ids);
  }

  lemma Close(tracker: seq<Id>, ids: seq<Id>)
    requires SameIds(tracker, ids)
    ensures Tracks(tracker, ids)
  {
    assert Sealed(0, tracker, ids);
    assert Sealed(1, tracker, ids);
    assert Sealed(2, tracker, ids);
  }

  /** An id is tracked exactly when it is in the pipeline. */
  lemma TrackedMeans(s: Pipe, id: Id)
    requires Tracks(s.tracker, InPipeline(s))
    ensures id in s.tracker <==> id in InPipeline(s)
    ensures "" !in s.tracker
  {
    Open(s.tracker, InPipeline(s));
    assert id in multiset(s.tracker) <==> id in multiset(InPipeline(s));
  }

  /** A parked error is not an answer to a command in the pipeline. */
  predicate ErrorApart(s: Pipe) {
    s.pending.Some? && s.pending.value.status >= COMMAND_STATUS ==> s.pending.value.id !in s.tracker
  }

  ghost predicate Inv(s: Pipe) {
    Bounded(s) && Tracks(s.tracker, InPipeline(s)) && ErrorApart(s)
  }

  /** The one step that can break the invariant: a malformed message that reuses the id of a command in the
      pipeline, and whose error cannot be published. */
  predicate Confuses(s: Pipe, step: Step) {
    step.Raw? && step.parsed.Malformed? && !step.published && step.parsed.id in s.tracker
  }

  /** Deleting an id from a sequence that holds each id at most once. */
  lemma Forgotten(q: seq<Id>, id: Id)
    requires forall x :: multiset(q)[x] <= 1
    ensures var r := WithoutNewest(q, id);
            && multiset(r) == multiset(q) - multiset{id} && |r| <= |q| && id !in r
            && (forall x :: multiset(r)[x] <= 1) && (forall x :: x in r ==> x in q)
  {
    WithoutNewestCounts(q, id);
    var r := WithoutNewest(q, id);
    assert multiset(r)[id] == 0;
    forall x | x in r ensures x in q {
      assert multiset(r)[x] > 0;
      assert multiset(q)[x] > 0;
    }
  }

  lemma TracksRemoved(tracker: seq<Id>, ids: seq<Id>, id: Id, rest: seq<Id>)
    requires Tracks(tracker, ids) && multiset(ids) == multiset(rest) + multiset{id}
    ensures Tracks(WithoutNewest(tracker, id), rest)
    ensures id in tracker && forall z :: z in WithoutNewest(tracker, id) ==> z in tracker && z != id
  {
    Open(tracker, ids);
    Forgotten(tracker, id);
    assert id in multiset(ids);
    Close(WithoutNewest(tracker, id), rest);
  }

  lemma TracksAdded(tracker: seq<Id>, ids: seq<Id>, id: Id, more: seq<Id>)
    requires Tracks(tracker, ids) && id !in tracker && id != "" && multiset(more) == multiset(ids) + multiset{id}
    ensures Tracks(tracker + [id], more)
  {
    Open(tracker, ids);
    assert multiset(tracker)[id] == 0;
    Close(tracker + [id], more);
  }

  /** The pipeline by its four places. */
  lemma ByPlace(s: Pipe)
    ensures multiset(InPipeline(s))
            == multiset(s.requests) + multiset(Executing(s)) + multiset(Ids(s.responses)) + multiset(Parked(s))
  {
  }

  lemma FirstOut(rs: seq<Response>)
    requires rs != []
    ensures multiset(Ids(rs)) == multiset(Ids(rs[1..])) + multiset{rs[0].id}
  {
    assert Ids(rs) == [rs[0].id] + Ids(rs[1..]);
  }

  lemma LastIn(rs: seq<Response>, r: Response)
    ensures multiset(Ids(rs + [r])) == multiset(Ids(rs)) + multiset{r.id}
  {
    assert Ids(rs + [r]) == Ids(rs) + [r.id];
  }

  /** What a command that moves on, or leaves, means for the tracker; the other two parts of the
      invariant are seen step by step. */
  lemma Moved(s: Pipe, t: Pipe)
    requires Tracks(s.tracker, InPipeline(s)) && t.tracker == s.tracker
    requires multiset(t.requests) + multiset(Executing(t)) + multiset(Ids(t.responses)) + multiset(Parked(t))
             == multiset(s.requests) + multiset(Executing(s)) + multiset(Ids(s.responses)) + multiset(Parked(s))
    ensures Tracks(t.tracker, InPipeline(t))
  {
    ByPlace(s);
    ByPlace(t);
    Open(s.tracker, InPipeline(s));
    Close(t.tracker, InPipeline(t));
  }

  lemma Left(s: Pipe, t: Pipe, id: Id)
    requires Tracks(s.tracker, InPipeline(s)) && t.tracker == WithoutNewest(s.tracker, id)
    requires multiset(s.requests) + multiset(Executing(s)) + multiset(Ids(s.responses)) + multiset(Parked(s))
             == multiset(t.requests) + multiset(Executing(t)) + multiset(Ids(t.responses)) + multiset(Parked(t))
                 + multiset{id}
    ensures Tracks(t.tracker, InPipeline(t)) && forall z :: z in t.tracker ==> z in s.tracker && z != id
  {
    ByPlace(s);
    ByPlace(t);
    TracksRemoved(s.tracker, InPipeline(s), id, InPipeline(t));
  }

  lemma TakeTracks(s: Pipe)
    requires Tracks(s.tracker, InPipeline(s)) && Enabled(s, Take)
    ensures var t := After(s, Take); Tracks(t.tracker, InPipeline(t))
  {
    assert s.requests == [s.requests[0]] + s.requests[1..];
    Moved(s, After(s, Take));
  }

  lemma FinishTracks(s: Pipe, status: byte)
    requires Tracks(s.tracker, InPipeline(s)) && Enabled(s, Finish(status))
    ensures var t := After(s, Finish(status));
            Tracks(t.tracker, InPipeline(t)) && forall z :: z in t.tracker ==> z in s.tracker
  {
    var id, t := s.executing.value, After(s, Finish(status));
    if |s.responses| < QUEUE_DEPTH {
      LastIn(s.responses, Response(id, status));
      Moved(s, t);
    } else {
      Left(s, t, id);
    }
  }

  lemma AnswerTracks(s: Pipe, published: bool)
    requires Tracks(s.tracker, InPipeline(s)) && Enabled(s, Answer(published)) && s.responses[0].status < COMMAND_STATUS
    ensures var t := After(s, Answer(published));
            Tracks(t.tracker, InPipeline(t)) && forall z :: z in t.tracker ==> z in s.tracker
  {
    FirstOut(s.responses);
    if published {
      Left(s, After(s, Answer(published)), s.responses[0].id);
    } else {
      Moved(s, After(s, Answer(published)));
    }
  }

  lemma RetryTracks(s: Pipe, published: bool)
    requires Tracks(s.tracker, InPipeline(s)) && ErrorApart(s) && Enabled(s, Retry(published))
    ensures var t := After(s, Retry(published)); Tracks(t.tracker, InPipeline(t))
  {
    var r, t := s.pending.value, After(s, Retry(published));
    if published && r.status < COMMAND_STATUS {
      Left(s, t, r.id);
    } else {
      if published {
        WithoutNone(s.tracker, r.id);
      }
      Moved(s, t);
    }
  }

  lemma TakeKeeps(s: Pipe)
    requires Inv(s) && Enabled(s, Take)
    ensures Inv(After(s, Take))
  {
    TakeTracks(s);
  }

  lemma FinishKeeps(s: Pipe, status: byte)
    requires Inv(s) && Enabled(s, Finish(status))
    ensures Inv(After(s, Finish(status)))
  {
    FinishTracks(s, status);
    RestKept(s, After(s, Finish(status)));
  }

  lemma RestKept(s: Pipe, t: Pipe)
    requires Inv(s) && Tracks(t.tracker, InPipeline(t)) && (forall z :: z in t.tracker ==> z in s.tracker)
    requires |t.tracker| <= |s.tracker|
    requires t.requests == s.requests && t.pending == s.pending && t.cache == s.cache
    requires t.responses == s.responses
             || (|s.responses| < QUEUE_DEPTH
                 && exists r: Response :: r.status < COMMAND_STATUS && t.responses == s.responses + [r])
    ensures Inv(t)
  {
  }

  lemma AnswerKeeps(s: Pipe, published: bool)
    requires Inv(s) && Enabled(s, Answer(published))
    ensures Inv(After(s, Answer(published)))
  {
    AnswerTracks(s, published);
  }

  lemma RetryKeeps(s: Pipe, published: bool)
    requires Inv(s) && Enabled(s, Retry(published))
    ensures Inv(After(s, Retry(published)))
  {
    RetryTracks(s, published);
  }

  /** A message that is not queued changes at most the cache or the pending slot. */
  lemma RepliedKeeps(s: Pipe, r: Response, published: bool)
    requires Inv(s) && s.pending == None && r.status >= COMMAND_STATUS && (published || r.id !in s.tracker)
    ensures Inv(Replied(s, r, published))
  {
    assert InPipeline(Replied(s, r, published)) == InPipeline(s);
  }

  lemma AcceptedKeeps(s: Pipe, id: Id)
    requires Inv(s) && id != "" && id !in s.tracker && |s.tracker| < INFLIGHT_DEPTH && |s.requests| < QUEUE_DEPTH
    requires s.pending == None
    ensures Inv(s.(tracker := s.tracker + [id], requests := s.requests + [id]))
  {
    var t := s.(tracker := s.tracker + [id], requests := s.requests + [id]);
    AddedTracks(s, t, id);
  }

  lemma AddedTracks(s: Pipe, t: Pipe, id: Id)
    requires Tracks(s.tracker, InPipeline(s)) && id != "" && id !in s.tracker
    requires t == s.(tracker := s.tracker + [id], requests := s.requests + [id])
    ensures Tracks(t.tracker, InPipeline(t))
  {
    ByPlace(s);
    ByPlace(t);
    TracksAdded(s.tracker, InPipeline(s), id, InPipeline(t));
  }

  lemma AdmitKeeps(s: Pipe, id: Id, published: bool)
    requires Inv(s) && s.pending == None
    ensures Inv(Admit(s, id, published))
  {
    if !Cached(s, id) && !(id != "" && id in s.tracker) {
      if id != "" && |s.tracker| < INFLIGHT_DEPTH && |s.requests| < QUEUE_DEPTH {
        AcceptedKeeps(s, id);
      } else {
        TrackedMeans(s, id);
        Undone(s.tracker, id);
        RepliedKeeps(s, Response(id, STATUS_QUEUE_FULL), published);
      }
    }
  }

  /** Adding to the tracker and removing again. */
  lemma Undone(q: seq<Id>, id: Id)
    ensures WithoutNewest(q + [id], id) == q
  {
    WithoutNewestAt(q + [id], |q|, id);
    assert (q + [id])[..|q|] + (q + [id])[|q| + 1..] == q;
  }

  lemma RawKeeps(s: Pipe, parsed: Parsed, published: bool)
    requires Inv(s) && Enabled(s, Raw(parsed, published))
    ensures Inv(After(s, Raw(parsed, published))) <==> !Confuses(s, Raw(parsed, published))
  {
    match parsed
    case Unreadable =>
    case Malformed(id, status) =>
      assert InPipeline(After(s, Raw(parsed, published))) == InPipeline(s);
    case Request(id) => AdmitKeeps(s, id, published);
  }

  /** INVARIANT, EXACTLY.  Every step keeps it except the one that Confuses. */
  lemma StepKeepsExactly(s: Pipe, step: Step)
    requires Inv(s) && Enabled(s, step)
    ensures Inv(After(s, step)) <==> !Confuses(s, step)
  {
    match step
    case Take => TakeKeeps(s);
    case Finish(status) => FinishKeeps(s, status);
    case Retry(published) => RetryKeeps(s, published);
    case Answer(published) => AnswerKeeps(s, published);
    case Raw(parsed, published) => RawKeeps(s, parsed, published);
  }

  /** What such a message leads to: once its error is published, the tracker has lost a command that
      is still in the pipeline, and its next redelivery would be accepted again when the cache has
      moved on. */
  lemma ConfusionForgets(s: Pipe, id: Id, status: byte)
    requires Inv(s) && s.pending == None && id in s.tracker && status >= COMMAND_STATUS
    ensures var t := After(s, Raw(Malformed(id, status), false)); var u := After(t, Retry(true));
            id !in u.tracker && id in InPipeline(u)
  {
    Open(s.tracker, InPipeline(s));
    Forgotten(s.tracker, id);
    TrackedMeans(s, id);
    var u := After(After(s, Raw(Malformed(id, status), false)), Retry(true));
    assert InPipeline(u) == InPipeline(s);
  }

  // ---------------------------------------------------------------- deduplication

  /** The tracker is as large as everything the pipeline can hold while raw messages are being read. */
  lemma PipelineSize(s: Pipe)
    requires Inv(s) && s.pending == None
    ensures |s.tracker| == |s.requests| + |Executing(s)| + |s.responses|
  {
    Open(s.tracker, InPipeline(s));
    assert |multiset(s.tracker)| == |multiset(InPipeline(s))|;
    assert |multiset(s.tracker)| == |s.tracker| && |multiset(InPipeline(s))| == |InPipeline(s)|;
  }

  /** SIZING.  The tracker refuses an id only when the request queue is full as well, although one
      more command may be executing: it never turns away a command that could have been queued. */
  lemma TrackerNeverShort(s: Pipe, id: Id)
    requires Inv(s) && s.pending == None && id != "" && |s.tracker| >= INFLIGHT_DEPTH
    ensures |s.requests| == QUEUE_DEPTH && |s.responses| == QUEUE_DEPTH && s.executing.Some?
  {
    PipelineSize(s);
  }

  /** DEDUPLICATION, EXACTLY.  A valid request is queued if and only if its id is not empty, not among the
      last four responses, not in the pipeline, and there is room in the request queue. */
  lemma AcceptsExactly(s: Pipe, id: Id, published: bool)
    requires Inv(s) && s.pending == None
    ensures After(s, Raw(Request(id), published)).requests == s.requests + [id] <==>
            (id != "" && id !in Ids(s.cache) && id !in InPipeline(s) && |s.requests| < QUEUE_DEPTH)
  {
    TrackedMeans(s, id);
    if |s.tracker| >= INFLIGHT_DEPTH && id != "" {
      TrackerNeverShort(s, id);
    }
  }

  /** How many responses to other ids it takes until a redelivery of `id` would be queued again. */
  function Slack(s: Pipe, id: Id): nat
    requires |s.cache| <= CACHE_DEPTH
  {
    if id in s.tracker then CACHE_DEPTH
    else if Newest(s.cache, id) == 0 then 0
    else Newest(s.cache, id) + (CACHE_DEPTH - |s.cache|)
  }

  /** One more than the index of the newest response to `id`, 0 if there is none. */
  function Newest(q: seq<Response>, id: Id): (n: nat)
    ensures n <= |q| && (n == 0 <==> id !in Ids(q))
    decreases |q|
  {
    if q == [] then 0
    else if q[|q| - 1].id == id then |q|
    else
      assert q == q[..|q| - 1] + [q[|q| - 1]] && Ids(q) == Ids(q[..|q| - 1]) + [q[|q| - 1].id];
      Newest(q[..|q| - 1], id)
  }

  lemma {:induction false} NewestShift(q: seq<Response>, id: Id)
    requires q != []
    ensures Newest(q[1..], id) == if Newest(q, id) > 0 then Newest(q, id) - 1 else 0
    decreases |q|
  {
    if |q| > 1 && q[|q| - 1].id != id {
      NewestShift(q[..|q| - 1], id);
      assert q[1..][..|q| - 2] == q[..|q| - 1][1..];
    }
  }

  lemma NewestRemembered(q: seq<Response>, r: Response, id: Id)
    requires |q| <= CACHE_DEPTH
    ensures var m := Remembered(q, r);
            Newest(m, id) == if r.id == id then |m|
                             else if |q| < CACHE_DEPTH then Newest(q, id)
                             else if Newest(q, id) > 0 then Newest(q, id) - 1 else 0
  {
    var base := if |q| < CACHE_DEPTH then q else q[1..];
    assert Remembered(q, r)[..|base|] == base;
    if |q| == CACHE_DEPTH {
      NewestShift(q, id);
    }
  }

  predicate NoRoom(s: Pipe) {
    |s.tracker| >= INFLIGHT_DEPTH || |s.requests| >= QUEUE_DEPTH
  }

  /** The response a step puts into the cache. */
  function Remembers(s: Pipe, step: Step): Option<Response>
    requires Enabled(s, step)
  {
    match step
    case Take => None
    case Finish(_) => None
    case Retry(published) => if published then s.pending else None
    case Answer(published) => if published then Some(s.responses[0]) else None
    case Raw(parsed, published) =>
      match parsed
      case Unreadable => None
      case Malformed(id, status) => if published then Some(Response(id, status)) else None
      case Request(id) =>
        if published && !Cached(s, id) && (id == "" || (id !in s.tracker && NoRoom(s)))
        then Some(Response(id, STATUS_QUEUE_FULL)) else None
  }

  /** The only way a command leaves the pipeline unanswered: executed while the response queue is full. */
  predicate Loses(s: Pipe, step: Step, id: Id) {
    step.Finish? && s.executing == Some(id) && |s.responses| >= QUEUE_DEPTH
  }

  predicate OtherAnswered(s: Pipe, step: Step, id: Id)
    requires Enabled(s, step)
  {
    Remembers(s, step).Some? && Remembers(s, step).value.id != id
  }

  /** What a step does to the cache and to one id in the tracker. */
  lemma StepOnId(s: Pipe, step: Step, id: Id)
    requires Inv(s) && Enabled(s, step) && !Loses(s, step, id)
    ensures var t := After(s, step);
            && t.cache == (if Remembers(s, step).Some? then Remembered(s.cache, Remembers(s, step).value) else s.cache)
            && (id in s.tracker && id !in t.tracker ==> Remembers(s, step).Some? && Remembers(s, step).value.id == id)
  {
    match step
    case Finish(_) => Keeping(s.tracker, s.executing.value, id);
    case Retry(_) => Keeping(s.tracker, s.pending.value.id, id);
    case Answer(_) => Keeping(s.tracker, s.responses[0].id, id);
    case Raw(parsed, _) =>
      if parsed.Request? {
        Undone(s.tracker, parsed.id);
      }
    case Take =>
  }

  lemma Keeping(q: seq<Id>, gone: Id, id: Id)
    ensures id in q && id != gone ==> id in WithoutNewest(q, gone)
  {
    WithoutNewestCounts(q, gone);
    if id in q && id != gone {
      assert multiset(q)[id] > 0;
      assert multiset(WithoutNewest(q, gone))[id] > 0;
    }
  }

  /** The slack of an id falls by at most one, and only when another id is answered. */
  lemma SlackFalls(s: Pipe, step: Step, id: Id)
    requires Inv(s) && Enabled(s, step) && !Loses(s, step, id)
    ensures |After(s, step).cache| <= CACHE_DEPTH
    ensures Slack(After(s, step), id) >= Slack(s, id) - if OtherAnswered(s, step, id) then 1 else 0
  {
    StepOnId(s, step, id);
    if Remembers(s, step).Some? {
      NewestRemembered(s.cache, Remembers(s, step).value, id);
    }
  }

  // ---------------------------------------------------------------- runs

  predicate EnabledRun(s: Pipe, steps: seq<Step>)
    decreases |steps|
  {
    steps != [] ==> Enabled(s, steps[0]) && EnabledRun(After(s, steps[0]), steps[1..])
  }

  function Run(s: Pipe, steps: seq<Step>): Pipe
    requires EnabledRun(s, steps)
    decreases |steps|
  {
    if steps == [] then s else Run(After(s, steps[0]), steps[1..])
  }

  /** No malformed message reuses an id of the pipeline while the client is down. */
  predicate Clear(s: Pipe, steps: seq<Step>)
    requires EnabledRun(s, steps)
    decreases |steps|
  {
    steps != [] ==> !Confuses(s, steps[0]) && Clear(After(s, steps[0]), steps[1..])
  }

  predicate Loss(s: Pipe, steps: seq<Step>, id: Id)
    requires EnabledRun(s, steps)
    decreases |steps|
  {
    steps != [] && (Loses(s, steps[0], id) || Loss(After(s, steps[0]), steps[1..], id))
  }

  /** How many responses to other ids a run caches. */
  function OthersAnswered(s: Pipe, steps: seq<Step>, id: Id): nat
    requires EnabledRun(s, steps)
    decreases |steps|
  {
    if steps == [] then 0
    else (if OtherAnswered(s, steps[0], id) then 1 else 0) + OthersAnswered(After(s, steps[0]), steps[1..], id)
  }

  lemma {:induction false} RunSlack(s: Pipe, steps: seq<Step>, id: Id)
    requires Inv(s) && EnabledRun(s, steps) && Clear(s, steps) && !Loss(s, steps, id)
    ensures Inv(Run(s, steps))
    ensures Slack(Run(s, steps), id) >= Slack(s, id) - OthersAnswered(s, steps, id)
    decreases |steps|
  {
    if steps != [] {
      StepKeepsExactly(s, steps[0]);
      SlackFalls(s, steps[0], id);
      RunSlack(After(s, steps[0]), steps[1..], id);
    }
  }

  /** REDELIVERY.  Once accepted, a command is not accepted again, however often it is redelivered
      and however the two tasks interleave, until four other commands have been answered, or its own
      answer was lost to a full response queue. */
  lemma NotAcceptedAgain(s: Pipe, steps: seq<Step>, id: Id, published: bool)
    requires Inv(s) && id in s.tracker && EnabledRun(s, steps) && Clear(s, steps)
    requires !Loss(s, steps, id) && OthersAnswered(s, steps, id) < CACHE_DEPTH
    requires Run(s, steps).pending == None
    ensures var t := Run(s, steps); After(t, Raw(Request(id), published)).requests == t.requests
  {
    RunSlack(s, steps, id);
    var t := Run(s, steps);
    TrackedMeans(t, id);
    AcceptsExactly(t, id, published);
  }

  const FRESH: Pipe := Pipe([], None, [], None, [], [])

  /** From the start, over every run in which no malformed message confuses it. */
  lemma RunKeeps(steps: seq<Step>)
    requires EnabledRun(FRESH, steps) && Clear(FRESH, steps)
    ensures Inv(Run(FRESH, steps))
  {
    Close([], InPipeline(FRESH));
    RunInv(FRESH, steps);
  }

  lemma {:induction false} RunInv(s: Pipe, steps: seq<Step>)
    requires Inv(s) && EnabledRun(s, steps) && Clear(s, steps)
    ensures Inv(Run(s, steps))
    decreases |steps|
  {
    if steps != [] {
      StepKeepsExactly(s, steps[0]);
      RunInv(After(s, steps[0]), steps[1..]);
    }
  }

  // ---------------------------------------------------------------- the loops of the MQTT task

  /** Whether the k-th publish succeeds. */
  type Uplink = nat -> bool

  datatype Progress = Progress(s: Pipe, attempts: nat)

  /** process_cmd_response_queue once nothing is pending. */
  function AnswerLoop(p: Progress, up: Uplink): Progress
    requires p.s.pending == None
    decreases |p.s.responses|
  {
    if p.s.responses == [] then p
    else
      var q := Progress(After(p.s, Answer(up(p.attempts))), p.attempts + 1);
      if up(p.attempts) then AnswerLoop(q, up) else q
  }

  /** process_cmd_response_queue */
  function Responses(p: Progress, up: Uplink): Progress {
    if p.s.pending.Some? then
      var q := Progress(After(p.s, Retry(up(p.attempts))), p.attempts + 1);
      if up(p.attempts) then AnswerLoop(q, up) else q
    else AnswerLoop(p, up)
  }

  /** Whether handling a raw message publishes something. */
  predicate Speaks(s: Pipe, parsed: Parsed) {
    match parsed
    case Unreadable => false
    case Malformed(_, _) => true
    case Request(id) => Cached(s, id) || (!(id != "" && id in s.tracker) && (id == "" || NoRoom(s)))
  }

  predicate WellCoded(raw: seq<Parsed>) {
    forall i :: 0 <= i < |raw| && raw[i].Malformed? ==> raw[i].status >= COMMAND_STATUS
  }

  /** process_cmd_raw_queue, which runs only while nothing is pending and stops when something is. */
  function RawLoop(p: Progress, raw: seq<Parsed>, up: Uplink): Progress
    requires WellCoded(raw)
    decreases |raw|
  {
    if p.s.pending.Some? || raw == [] then p
    else
      var q := Progress(After(p.s, Raw(raw[0], up(p.attempts))), p.attempts + if Speaks(p.s, raw[0]) then 1 else 0);
      RawLoop(q, raw[1..], up)
  }

  /** What answering one response leaves. */
  lemma AnswerLeaves(s: Pipe, published: bool)
    requires Enabled(s, Answer(published))
    ensures var t := After(s, Answer(published));
            && t.requests == s.requests && t.responses == s.responses[1..]
            && (if published then t.pending == None else t.pending.Some?)
  {
  }

  lemma {:induction false} AnswerLoopKeeps(p: Progress, up: Uplink)
    requires Inv(p.s) && p.s.pending == None
    ensures var q := AnswerLoop(p, up);
            Inv(q.s) && (q.s.pending == None ==> q.s.responses == []) && q.s.requests == p.s.requests
    decreases |p.s.responses|
  {
    if p.s.responses != [] {
      AnswerKeeps(p.s, up(p.attempts));
      AnswerLeaves(p.s, up(p.attempts));
      if up(p.attempts) {
        AnswerLoopKeeps(Progress(After(p.s, Answer(true)), p.attempts + 1), up);
      }
    }
  }

  /** One call answers everything or leaves one response parked; the invariant holds after it. */
  lemma ResponsesKeeps(p: Progress, up: Uplink)
    requires Inv(p.s)
    ensures var q := Responses(p, up); Inv(q.s) && (q.s.pending == None ==> q.s.responses == [])
  {
    if p.s.pending.Some? {
      RetryKeeps(p.s, up(p.attempts));
      if up(p.attempts) {
        AnswerLoopKeeps(Progress(After(p.s, Retry(true)), p.attempts + 1), up);
      }
    } else {
      AnswerLoopKeeps(p, up);
    }
  }

  /** Malformed messages with ids that are not in the pipeline, and that no request before them reuses. */
  predicate NoReuse(s: Pipe, raw: seq<Parsed>) {
    forall i :: 0 <= i < |raw| && raw[i].Malformed? ==>
      raw[i].id !in s.tracker && forall j :: 0 <= j < i ==> raw[j] != Request(raw[i].id)
  }

  lemma {:induction false} RawLoopKeeps(p: Progress, raw: seq<Parsed>, up: Uplink)
    requires Inv(p.s) && WellCoded(raw) && NoReuse(p.s, raw)
    ensures Inv(RawLoop(p, raw, up).s)
    decreases |raw|
  {
    if p.s.pending == None && raw != [] {
      var step := Raw(raw[0], up(p.attempts));
      StepKeepsExactly(p.s, step);
      var s := After(p.s, step);
      forall i | 0 <= i < |raw[1..]| && raw[1..][i].Malformed?
        ensures raw[1..][i].id !in s.tracker && forall j :: 0 <= j < i ==> raw[1..][j] != Request(raw[1..][i].id)
      {
        assert raw[i + 1].Malformed? && raw[0] != Request(raw[i + 1].id);
        TrackerGrows(p.s, raw[0], up(p.attempts));
        forall j | 0 <= j < i ensures raw[1..][j] != Request(raw[1..][i].id) {
          assert raw[1..][j] == raw[j + 1];
        }
      }
      RawLoopKeeps(Progress(s, p.attempts + if Speaks(p.s, raw[0]) then 1 else 0), raw[1..], up);
    }
  }

  lemma TrackerGrows(s: Pipe, parsed: Parsed, published: bool)
    requires s.pending == None && (parsed.Malformed? ==> parsed.status >= COMMAND_STATUS)
    ensures var t := After(s, Raw(parsed, published));
            t.tracker == s.tracker || (parsed.Request? && t.tracker == s.tracker + [parsed.id])
  {
    if parsed.Request? {
      Undone(s.tracker, parsed.id);
    }
  }
}

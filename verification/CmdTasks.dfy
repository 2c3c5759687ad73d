/** The loops of the MQTT task and the execution step of the poll task over the real tracker and cache
    (mqtt_gw_task.c, pmbus_poll_task.c), proved to take the steps of CmdPipeline. */
module CmdTasks {
  import opened Words
  import opened Records
  import opened CmdHandler
  import opened CmdPipeline

  class CommandPath {
    const tracker: InflightTracker
    const cache: ResponseCache
    const up: Uplink
    var requests: seq<Id>               // cmd_request_queue
    var responses: seq<Response>        // cmd_response_queue
    var executing: Option<Id>
    var pending: Option<Response>       // s_cmd_pending_resp, s_cmd_pending_valid
    var attempts: nat

    ghost predicate Valid()
      reads this, tracker, tracker.slots, cache, cache.slots
    {
      tracker.Valid() && cache.Valid()
    }

    ghost function State(): Pipe
      reads this, tracker, cache
    {
      Pipe(requests, executing, responses, pending, tracker.items, cache.recent)
    }

    ghost function Now(): Progress
      reads this, tracker, cache
    {
      Progress(State(), attempts)
    }

    constructor (up: Uplink)
      ensures Valid() && State() == FRESH && attempts == 0 && this.up == up
      ensures fresh(tracker) && fresh(tracker.slots) && fresh(cache) && fresh(cache.slots)
    {
      tracker := new InflightTracker();
      cache := new ResponseCache();
      this.up := up;
      requests, responses, executing, pending, attempts := [], [], None, None, 0;
    }

    /** publish_cmd_response */
    method Publish(r: Response) returns (ok: bool)
      modifies `attempts
      ensures ok == up(old(attempts)) && attempts == old(attempts) + 1
    {
      ok := up(attempts);
      attempts := attempts + 1;
    }

    /** The poll task takes a command. */
    method TakeCommand()
      requires Valid() && Enabled(State(), Take)
      modifies `requests, `executing
      ensures Valid() && State() == After(old(State()), Take)
    {
      executing := Some(requests[0]);
      requests := requests[1..];
    }

    /** The poll task has executed it and hands the response over, or drops it when the queue is full. */
    method FinishCommand(status: byte)
      requires Valid() && Enabled(State(), Finish(status))
      modifies `responses, `executing, tracker, tracker.slots
      ensures Valid() && State() == After(old(State()), Finish(status))
    {
      var id := executing.value;
      executing := None;
      if |responses| < QUEUE_DEPTH {
        responses := responses + [Response(id, status)];
      } else {
        tracker.Remove(id);
      }
    }

    /** What a published response leaves behind. */
    method Settle(r: Response)
      requires Valid()
      modifies tracker, tracker.slots, cache, cache.slots
      ensures Valid() && State() == Settled(old(State()), r)
    {
      tracker.Remove(r.id);
      cache.Put(r);
    }

    /** process_cmd_response_queue */
    method ProcessResponses()
      requires Valid()
      modifies this, tracker, tracker.slots, cache, cache.slots
      ensures Valid() && Now() == Responses(old(Now()), up)
      ensures old(Inv(State())) ==> Inv(State()) && (pending == None ==> responses == [])
    {
      if Inv(State()) {
        ResponsesKeeps(Now(), up);
      }
      AnswerAll();
    }

    method AnswerAll()
      requires Valid()
      modifies this, tracker, tracker.slots, cache, cache.slots
      ensures Valid() && Now() == Responses(old(Now()), up)
    {
      if pending.Some? {
        var ok := Publish(pending.value);
        if !ok {
          return;
        }
        Settle(pending.value);
        pending := None;
      }
      DrainResponses();
    }

    /** One response of the queue. */
    method AnswerOne() returns (ok: bool)
      requires Valid() && Enabled(State(), Answer(true))
      modifies `responses, `pending, `attempts, tracker, tracker.slots, cache, cache.slots
      ensures Valid() && ok == up(old(attempts))
      ensures Now() == Progress(After(old(State()), Answer(ok)), old(attempts) + 1)
    {
      var r := responses[0];
      responses := responses[1..];
      ok := Publish(r);
      if ok {
        Settle(r);
      } else {
        pending := Some(r);
      }
    }

    method DrainResponses()
      requires Valid() && pending == None
      modifies `responses, `pending, `attempts, tracker, tracker.slots, cache, cache.slots
      ensures Valid() && Now() == AnswerLoop(old(Now()), up)
    {
      ghost var all := AnswerLoop(Now(), up);
      while responses != []
        invariant Valid() && pending == None && AnswerLoop(Now(), up) == all
        decreases |responses|
      {
        var ok := AnswerOne();
        if !ok {
          return;
        }
      }
    }

    /** An error response to a message that is not queued. */
    method Reply(r: Response)
      requires Valid() && pending == None
      modifies `pending, `attempts, cache, cache.slots
      ensures Valid() && State() == Replied(old(State()), r, up(old(attempts))) && attempts == old(attempts) + 1
    {
      var ok := Publish(r);
      if ok {
        cache.Put(r);
      } else {
        pending := Some(r);
      }
    }

    /** A valid request: cache, then tracker, then room in the tracker, then room in the queue. */
    method HandleRequest(id: Id)
      requires Valid() && pending == None
      modifies `requests, `pending, `attempts, tracker, tracker.slots, cache, cache.slots
      ensures Valid() && State() == Admit(old(State()), id, up(old(attempts)))
      ensures attempts == old(attempts) + if Speaks(old(State()), Request(id)) then 1 else 0
    {
      var cached, hit := cache.Lookup(id);
      CachedMeans(State(), id);
      if hit {
        var _ := Publish(cached);
        return;
      }
      var inFlight := tracker.Check(id);
      if inFlight {
        return;
      }
      var reserved := tracker.Add(id);
      if !reserved {
        Reply(Response(id, STATUS_QUEUE_FULL));
        return;
      }
      if |requests| >= QUEUE_DEPTH {
        tracker.Remove(id);
        Reply(Response(id, STATUS_QUEUE_FULL));
        return;
      }
      requests := requests + [id];
    }

    /** One raw message. */
    method HandleRaw(parsed: Parsed)
      requires Valid() && Enabled(State(), Raw(parsed, true))
      modifies `requests, `pending, `attempts, tracker, tracker.slots, cache, cache.slots
      ensures Valid() && State() == After(old(State()), Raw(parsed, up(old(attempts))))
      ensures attempts == old(attempts) + if Speaks(old(State()), parsed) then 1 else 0
    {
      match parsed
      case Unreadable =>
      case Malformed(id, status) =>
        Reply(Response(id, status));
      case Request(id) =>
        HandleRequest(id);
    }

    /** process_cmd_raw_queue on what cmd_handler_parse makes of the raw queue; what is left unread
        stays queued. */
    method ProcessRaw(raw: seq<Parsed>) returns (read: nat)
      requires Valid() && pending == None && WellCoded(raw)
      modifies `requests, `pending, `attempts, tracker, tracker.slots, cache, cache.slots
      ensures Valid() && Now() == RawLoop(old(Now()), raw, up)
      ensures read <= |raw| && (read < |raw| ==> pending.Some?)
      ensures old(Inv(State())) && NoReuse(old(State()), raw) ==> Inv(State())
    {
      if Inv(State()) && NoReuse(State(), raw) {
        RawLoopKeeps(Now(), raw, up);
      }
      ghost var all := RawLoop(Now(), raw, up);
      read := 0;
      while read < |raw|
        invariant Valid() && pending == None && read <= |raw| && RawLoop(Now(), raw[read..], up) == all
      {
        assert raw[read..][0] == raw[read] && raw[read..][1..] == raw[read + 1..];
        HandleRaw(raw[read]);
        read := read + 1;
        if pending.Some? {
          return;
        }
      }
    }
  }

  lemma CachedMeans(s: Pipe, id: Id)
    ensures Cached(s, id) <==> id != "" && exists k :: 0 <= k < |s.cache| && s.cache[k].id == id
  {
    if k :| 0 <= k < |s.cache| && s.cache[k].id == id {
      assert Ids(s.cache)[k] == id;
    }
  }
}

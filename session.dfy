/**
 One monitoring session per connected client: a baseline listing, updated once
 per successful tick, and the log of events pushed to that client. Each tick
 either receives a fresh process listing, announces what started and what
 ended since the baseline and adopts the listing as the new baseline, or
 receives a failed fetch, which is logged for the operator and changes nothing
 else.
 */
module ProcessSession {
  import opened ProcessDiff

  /** The two events a client receives. */
  datatype EventName = StartedEvent | EndedEvent {
    /** The name the event travels under. */
    function Wire(): string {
      match this
      case StartedEvent => "processesStarted"
      case EndedEvent => "processesEnded"
    }
  }

  /** What an event carries: the process's name and pid and when the diff was reported. */
  datatype Payload = Payload(name: string, pid: int, date: string)

  /** One `emit` to the client: the event's name and its payload. */
  datatype Event = Event(event: EventName, payload: Payload)

  /** The outcome of asking the operating system for its process list. */
  datatype FetchResult = Listed(procs: seq<Proc>) | FetchFailed(error: string)

  /** The events announcing each of `procs`, one per record and in their order. */
  function Announce(event: EventName, procs: seq<Proc>, date: string): seq<Event>
    decreases |procs|
  {
    if procs == [] then []
    else [Event(event, Payload(procs[0].name, procs[0].pid, date))] + Announce(event, procs[1..], date)
  }

  /** One event per record, at that record's position, carrying its name and pid. */
  lemma {:induction false} AnnounceSpec(event: EventName, procs: seq<Proc>, date: string)
    ensures |Announce(event, procs, date)| == |procs|
    ensures forall k :: 0 <= k < |procs| ==>
      Announce(event, procs, date)[k] == Event(event, Payload(procs[k].name, procs[k].pid, date))
    decreases |procs|
  {
    if procs != [] {
      AnnounceSpec(event, procs[1..], date);
    }
  }

  /** Announcing one more record appends one event for it. */
  lemma {:induction false} AnnounceSnoc(event: EventName, procs: seq<Proc>, p: Proc, date: string)
    ensures Announce(event, procs + [p], date)
         == Announce(event, procs, date) + [Event(event, Payload(p.name, p.pid, date))]
    decreases |procs|
  {
    if procs != [] {
      assert (procs + [p])[1..] == procs[1..] + [p];
      AnnounceSnoc(event, procs[1..], p, date);
    }
  }

  /** What one successful tick emits, given the baseline and the new listing. */
  function TickEvents(baseline: seq<Proc>, listed: seq<Proc>, date: string): seq<Event>
  {
    Announce(StartedEvent, Started(baseline, listed), date) + Announce(EndedEvent, Ended(baseline, listed), date)
  }

  /**
   The layout of one tick's output: first one `processesStarted` event per
   started record, then one `processesEnded` event per ended record, each with
   that record's name and pid.
   */
  lemma TickEventsLayout(baseline: seq<Proc>, listed: seq<Proc>, date: string)
    ensures |TickEvents(baseline, listed, date)| == |Started(baseline, listed)| + |Ended(baseline, listed)|
    ensures forall k :: 0 <= k < |Started(baseline, listed)| ==>
      TickEvents(baseline, listed, date)[k]
        == Event(StartedEvent, Payload(Started(baseline, listed)[k].name, Started(baseline, listed)[k].pid, date))
    ensures forall k :: 0 <= k < |Ended(baseline, listed)| ==>
      TickEvents(baseline, listed, date)[|Started(baseline, listed)| + k]
        == Event(EndedEvent, Payload(Ended(baseline, listed)[k].name, Ended(baseline, listed)[k].pid, date))
  {
    AnnounceSpec(StartedEvent, Started(baseline, listed), date);
    AnnounceSpec(EndedEvent, Ended(baseline, listed), date);
  }

  /** The state `getProcesses` keeps for one client socket. */
  class Session {
    /** The listing of the last successful tick; empty before the first. */
    var baseline: seq<Proc>
    /** Everything emitted to the client so far, oldest first. */
    var events: seq<Event>
    /** The fetch errors reported to the operator so far, oldest first. */
    var errorLog: seq<string>

    /** A new connection starts from an empty baseline, having emitted and logged nothing. */
    constructor ()
      ensures baseline == [] && events == [] && errorLog == []
    {
      baseline := [];
      events := [];
      errorLog := [];
    }

    /** One push over the client's socket: the client receives one more event. */
    method Emit(event: EventName, p: Proc, date: string)
      modifies this`events
      ensures events == old(events) + [Event(event, Payload(p.name, p.pid, date))]
    {
      events := events + [Event(event, Payload(p.name, p.pid, date))];
    }

    /** The emit loop: one event per record of `procs`, in their order. */
    method EmitAll(event: EventName, procs: seq<Proc>, date: string)
      modifies this`events
      ensures events == old(events) + Announce(event, procs, date)
    {
      var i := 0;
      while i < |procs|
        invariant 0 <= i <= |procs|
        invariant events == old(events) + Announce(event, procs[..i], date)
      {
        AnnounceSnoc(event, procs[..i], procs[i], date);
        assert procs[..i + 1] == procs[..i] + [procs[i]];
        Emit(event, procs[i], date);
        i := i + 1;
      }
      assert procs[..i] == procs;
    }

    /**
     One tick of the polling timer. A fresh listing is diffed against the
     baseline, the started and then the ended records are emitted, and the
     listing becomes the baseline. A failed fetch is reported to the operator
     and leaves baseline and events as they were.
     */
    method Tick(fetched: FetchResult, date: string)
      modifies this
      ensures fetched.Listed? ==>
        && events == old(events) + TickEvents(old(baseline), fetched.procs, date)
        && baseline == fetched.procs
        && errorLog == old(errorLog)
      ensures fetched.FetchFailed? ==>
        && events == old(events)
        && baseline == old(baseline)
        && errorLog == old(errorLog) + [fetched.error]
    {
      match fetched
      case FetchFailed(error) =>
        errorLog := errorLog + [error];
      case Listed(newProcesses) =>
        var started := Started(baseline, newProcesses);
        EmitAll(StartedEvent, started, date);
        var ended := Ended(baseline, newProcesses);
        EmitAll(EndedEvent, ended, date);
        assert events == old(events) + (Announce(StartedEvent, started, date) + Announce(EndedEvent, ended, date));
        baseline := newProcesses;
    }
  }

  /**
   A client that connects, then sees a listing, a failed fetch and a second
   listing receives every process of the first listing as started, nothing for
   the failure, and then the diff of the second listing against the first.
   */
  method ConnectAndPoll(first: seq<Proc>, error: string, second: seq<Proc>, d1: string, d2: string, d3: string)
    returns (received: seq<Event>, lastBaseline: seq<Proc>)
    ensures received == Announce(StartedEvent, first, d1) + TickEvents(first, second, d3)
    ensures lastBaseline == second
  {
    var session := new Session();
    session.Tick(Listed(first), d1);
    FirstTick(first);
    assert session.events == Announce(StartedEvent, first, d1) + Announce(EndedEvent, [], d1);
    session.Tick(FetchFailed(error), d2);
    session.Tick(Listed(second), d3);
    received, lastBaseline := session.events, session.baseline;
  }
}

/** The ANCS connection lifecycle around the protocol consumer: ordered
    subscriptions, a fresh consumer per connection, and bounded backoff. */
module AncsSupervisor {
  import opened Common
  import opened AncsTransport

  datatype Phase = Disconnected | SubscribingNotificationSource | SubscribingDataSource | Ready

  datatype Command =
    | SubscribeNotificationSource
    | SubscribeDataSource
    | WriteControlPoint(request: Bytes)
    | RetryAfterSeconds(seconds: nat)

  datatype Lifecycle =
    | LinkUp
    | NotificationSourceSubscribed
    | DataSourceSubscribed
    | LinkDown
    | Bearer(event: Event)

  const MAX_FAILURES := 6

  function ShiftedOne(n: nat): nat {
    if n == 0 then 1 else 2 * ShiftedOne(n - 1)
  }

  datatype Supervisor = Supervisor(phase: Phase, protocol: Consumer, failures: nat)

  datatype Reaction = Reaction(state: Supervisor, metadata: Option<Metadata>, command: Option<Command>)

  const START := Supervisor(Disconnected, INITIAL, 0)

  function React(s: Supervisor, e: Lifecycle, lossy: Lossy): Reaction {
    match e
    case LinkUp =>
      Reaction(s.(phase := SubscribingNotificationSource, protocol := INITIAL), None,
               Some(SubscribeNotificationSource))
    case NotificationSourceSubscribed =>
      Reaction(s.(phase := SubscribingDataSource), None, Some(SubscribeDataSource))
    case DataSourceSubscribed => Reaction(s.(phase := Ready, failures := 0), None, None)
    case LinkDown =>
      var failures := Min(s.failures + 1, MAX_FAILURES);
      Reaction(Supervisor(Disconnected, INITIAL, failures), None,
               Some(RetryAfterSeconds(ShiftedOne(failures))))
    case Bearer(event) =>
      if !s.phase.Ready? then Reaction(s, None, None)
      else
        var out := Step(s.protocol, event, lossy);
        Reaction(s.(protocol := out.state), out.metadata,
                 if out.request.Some? then Some(WriteControlPoint(out.request.value)) else None)
  }

  /** The supervisor's fields updated in place. `connected` and `disconnected`
      replace the protocol object, they do not clear it. */
  class AncsSupervisor {
    var phase: Phase
    var protocol: AncsProtocolConsumer
    var failures: nat
    const lossy: Lossy

    ghost predicate Valid()
      reads this, protocol
    {
      protocol.lossy == lossy && failures <= MAX_FAILURES
    }

    ghost function View(): Supervisor
      reads this, protocol
    {
      Supervisor(phase, protocol.View(), failures)
    }

    constructor (lossy: Lossy)
      ensures Valid() && View() == START && this.lossy == lossy && fresh(protocol)
    {
      phase := Disconnected;
      protocol := new AncsProtocolConsumer(lossy);
      failures := 0;
      this.lossy := lossy;
    }

    method Connected() returns (command: Command)
      requires Valid()
      modifies this
      ensures Valid() && fresh(protocol)
      ensures React(old(View()), LinkUp, lossy) == Reaction(View(), None, Some(command))
    {
      protocol := new AncsProtocolConsumer(lossy);
      phase := SubscribingNotificationSource;
      return SubscribeNotificationSource;
    }

    method SourceSubscribed() returns (command: Command)
      requires Valid()
      modifies this
      ensures Valid() && protocol == old(protocol)
      ensures React(old(View()), NotificationSourceSubscribed, lossy)
           == Reaction(View(), None, Some(command))
    {
      phase := SubscribingDataSource;
      return SubscribeDataSource;
    }

    method DataSubscribed()
      requires Valid()
      modifies this
      ensures Valid() && protocol == old(protocol)
      ensures React(old(View()), DataSourceSubscribed, lossy) == Reaction(View(), None, None)
    {
      phase := Ready;
      failures := 0;
    }

    method LinkLost() returns (command: Command)
      requires Valid()
      modifies this
      ensures Valid() && fresh(protocol)
      ensures React(old(View()), LinkDown, lossy) == Reaction(View(), None, Some(command))
    {
      phase := Disconnected;
      protocol := new AncsProtocolConsumer(lossy);
      failures := Min(failures + 1, MAX_FAILURES);
      return RetryAfterSeconds(ShiftedOne(failures));
    }

    method OnNotificationSource(value: Bytes) returns (command: Option<Command>)
      requires Valid()
      modifies protocol
      ensures Valid()
      ensures React(old(View()), Bearer(Source(value)), lossy) == Reaction(View(), None, command)
    {
      if phase != Ready {
        return None;
      }
      var request := protocol.NotificationSource(value);
      return if request.Some? then Some(WriteControlPoint(request.value)) else None;
    }

    method OnDataSource(value: Bytes) returns (metadata: Option<Metadata>, command: Option<Command>)
      requires Valid()
      modifies protocol
      ensures Valid()
      ensures React(old(View()), Bearer(Data(value)), lossy) == Reaction(View(), metadata, command)
    {
      if phase != Ready {
        return None, None;
      }
      var m, request := protocol.DataSource(value);
      return m, if request.Some? then Some(WriteControlPoint(request.value)) else None;
    }
  }

  // ---- whole lifecycles ----

  ghost function Live(events: seq<Lifecycle>, lossy: Lossy): Supervisor {
    if events == [] then START
    else React(Live(events[..|events| - 1], lossy), events[|events| - 1], lossy).state
  }

  /** The bearer events accepted since the connection last went up or down. */
  ghost function Session(events: seq<Lifecycle>, lossy: Lossy): seq<Event> {
    if events == [] then []
    else
      var init, e := events[..|events| - 1], events[|events| - 1];
      if e.LinkUp? || e.LinkDown? then []
      else if e.Bearer? && Live(init, lossy).phase.Ready? then Session(init, lossy) + [e.event]
      else Session(init, lossy)
  }

  /** Disconnections since the subscriptions last completed. */
  ghost function FailuresSinceReady(events: seq<Lifecycle>): nat {
    if events == [] then 0
    else
      var init, e := events[..|events| - 1], events[|events| - 1];
      if e.DataSourceSubscribed? then 0
      else FailuresSinceReady(init) + (if e.LinkDown? then 1 else 0)
  }

  /** In every lifecycle the protocol state is exactly the run of the current
      session's events, so every run theorem of the consumer holds per connection;
      and the failure count is the true count capped at six. */
  lemma {:induction false} LiveIsSessionRun(events: seq<Lifecycle>, lossy: Lossy)
    ensures Live(events, lossy).protocol == Run(Session(events, lossy), lossy)
    ensures Consistent(Live(events, lossy).protocol)
    ensures Live(events, lossy).failures == Min(FailuresSinceReady(events), MAX_FAILURES)
  {
    RunConsistent(Session(events, lossy), lossy);
    if events != [] {
      var init, e := events[..|events| - 1], events[|events| - 1];
      LiveIsSessionRun(init, lossy);
      if e.Bearer? && Live(init, lossy).phase.Ready? {
        var session := Session(events, lossy);
        assert session[..|session| - 1] == Session(init, lossy);
      }
    }
  }

  /** The k-th consecutive failure retries after 2^min(k, 6) seconds. */
  lemma {:induction false} RetryDelay(events: seq<Lifecycle>, lossy: Lossy)
    ensures React(Live(events, lossy), LinkDown, lossy).command
         == Some(RetryAfterSeconds(ShiftedOne(Min(FailuresSinceReady(events) + 1, MAX_FAILURES))))
    ensures ShiftedOne(Min(FailuresSinceReady(events) + 1, MAX_FAILURES))
         == match FailuresSinceReady(events)
            case 0 => 2 case 1 => 4 case 2 => 8 case 3 => 16 case 4 => 32 case _ => 64
  {
    LiveIsSessionRun(events, lossy);
    var k := Min(FailuresSinceReady(events) + 1, MAX_FAILURES);
    assert ShiftedOne(1) == 2 && ShiftedOne(2) == 4 && ShiftedOne(3) == 8;
    assert ShiftedOne(4) == 16 && ShiftedOne(5) == 32 && ShiftedOne(6) == 64;
    assert k == 1 || k == 2 || k == 3 || k == 4 || k == 5 || k == 6;
  }

  /** Since event `i` completed the subscriptions there has been bearer traffic only. */
  ghost predicate SubscribedSince(events: seq<Lifecycle>, i: nat) {
    i < |events| && events[i].DataSourceSubscribed? && forall j :: i < j < |events| ==> events[j].Bearer?
  }

  lemma {:induction false} SubscribedSnoc(init: seq<Lifecycle>, e: Lifecycle)
    ensures (exists i: nat :: SubscribedSince(init + [e], i))
       <==> e.DataSourceSubscribed? || (e.Bearer? && exists i: nat :: SubscribedSince(init, i))
  {
    var events := init + [e];
    assert events[|init|] == e && forall j :: 0 <= j < |init| ==> events[j] == init[j];
    if e.DataSourceSubscribed? {
      assert SubscribedSince(events, |init|);
    }
    if e.Bearer? {
      if i: nat :| SubscribedSince(init, i) {
        assert SubscribedSince(events, i);
      }
    }
    if i: nat :| SubscribedSince(events, i) {
      if i < |init| {
        assert events[|init|].Bearer? && SubscribedSince(init, i);
      }
    }
  }

  /** The supervisor is ready exactly while the last lifecycle event other than bearer
      traffic is the completion of the subscriptions. */
  lemma {:induction false} ReadyExactly(events: seq<Lifecycle>, lossy: Lossy)
    ensures Live(events, lossy).phase.Ready? <==> exists i: nat :: SubscribedSince(events, i)
  {
    if events != [] {
      var init, e := events[..|events| - 1], events[|events| - 1];
      ReadyExactly(init, lossy);
      SubscribedSnoc(init, e);
      assert events == init + [e];
    }
  }

  /** Bearer traffic reaches the protocol exactly while ready: then its request and its
      metadata are what the run of this session's events gives, and otherwise nothing. */
  lemma {:induction false} ForwardsExactlyWhenReady(events: seq<Lifecycle>, e: Event, lossy: Lossy)
    ensures var r := React(Live(events, lossy), Bearer(e), lossy);
            var out := Step(Run(Session(events, lossy), lossy), e, lossy);
            if exists i: nat :: SubscribedSince(events, i) then
              && r.metadata == out.metadata
              && r.command == (if out.request.None? then None else Some(WriteControlPoint(out.request.value)))
            else r == Reaction(Live(events, lossy), None, None)
  {
    ReadyExactly(events, lossy);
    LiveIsSessionRun(events, lossy);
  }

  /** From any state, connecting and the two subscriptions ask for each other in turn and
      end ready, with a protocol that remembers nothing. */
  lemma {:induction false} HandshakeReachesReady(s: Supervisor, lossy: Lossy)
    ensures var a := React(s, LinkUp, lossy);
            var b := React(a.state, NotificationSourceSubscribed, lossy);
            var c := React(b.state, DataSourceSubscribed, lossy);
            && a.command == Some(SubscribeNotificationSource) && b.command == Some(SubscribeDataSource)
            && c.command == None && c.state == Supervisor(Ready, INITIAL, 0)
  {
  }
}

/** The bounded ANCS/MAP correlator. Notifications and MAP messages arrive in any
    order. An arrival is paired when it has exactly one match on the other side, and is
    reported as ambiguous when it has several; what else its partner matches is not
    looked at (see `AncsEvidence`). */
module AncsGroups {
  import opened Common
  import T = AncsTransport

  type Uid = T.Uid

  datatype Handle = Handle(text: string)

  datatype Notification = Notification(uid: Uid, title: string, subtitle: string, observed: int)

  datatype Message = Message(handle: Handle, sender: string, displayName: Option<string>, observed: int)

  datatype CorrelationResult =
    | Group(handle: Handle, uid: Uid, groupId: string, displaySubtitle: string, sender: string, observed: int)
    | DirectCandidate(handle: Handle, uid: Uid)
    | Pending
    | Ambiguous(handles: seq<Handle>, observed: int)
  {
    predicate Resolved() {
      Group? || DirectCandidate?
    }
  }

  /** Unicode normalization and SHA-256 are library functions and stay abstract. */
  datatype Env = Env(normalize: string -> string, digest: string -> string, maxDelta: nat)

  const WINDOW := 32
  const MAX_COMPLETED := 64

  function GroupId(env: Env, subtitle: string): Option<string> {
    var normalized := env.normalize(subtitle);
    if normalized == "" then None else Some("ancs-v1-" + env.digest(normalized))
  }

  predicate Matches(env: Env, n: Notification, m: Message) {
    var sender := if m.displayName.Some? then m.displayName.value else m.sender;
    && Max(n.observed - m.observed, m.observed - n.observed) <= env.maxDelta
    && env.normalize(n.title) == env.normalize(sender)
  }

  function CorrelatePair(env: Env, n: Notification, m: Message): (r: CorrelationResult)
    ensures r.Resolved() && r.handle == m.handle && r.uid == n.uid
    ensures r.DirectCandidate? <==> env.normalize(n.subtitle) == ""
  {
    match GroupId(env, n.subtitle)
    case None => DirectCandidate(m.handle, n.uid)
    case Some(id) => Group(m.handle, n.uid, id, n.subtitle, m.sender, n.observed)
  }

  /** The positions of the messages that match `n`, in order. */
  function MessageHits(env: Env, n: Notification, messages: seq<Message>): (r: seq<nat>)
    ensures r != [] ==> r[0] < |messages| && Matches(env, n, messages[r[0]])
  {
    if messages == [] then []
    else
      var at := |messages| - 1;
      MessageHits(env, n, messages[..at]) + (if Matches(env, n, messages[at]) then [at] else [])
  }

  /** The handles of the messages that match `n`, in order. */
  function HitHandles(env: Env, n: Notification, messages: seq<Message>): seq<Handle> {
    if messages == [] then []
    else
      var last := messages[|messages| - 1];
      HitHandles(env, n, messages[..|messages| - 1]) + (if Matches(env, n, last) then [last.handle] else [])
  }

  /** The positions of the notifications that match `m`, in order. */
  function NotificationHits(env: Env, notifications: seq<Notification>, m: Message): (r: seq<nat>)
    ensures r != [] ==> r[0] < |notifications| && Matches(env, notifications[r[0]], m)
  {
    if notifications == [] then []
    else
      var at := |notifications| - 1;
      NotificationHits(env, notifications[..at], m) + (if Matches(env, notifications[at], m) then [at] else [])
  }

  lemma {:induction false} MessageHitsSnoc(env: Env, n: Notification, messages: seq<Message>, i: nat)
    requires i < |messages|
    ensures var m := messages[i];
            && MessageHits(env, n, messages[..i + 1])
               == MessageHits(env, n, messages[..i]) + (if Matches(env, n, m) then [i] else [])
            && HitHandles(env, n, messages[..i + 1])
               == HitHandles(env, n, messages[..i]) + (if Matches(env, n, m) then [m.handle] else [])
  {
    assert messages[..i + 1][..i] == messages[..i];
  }

  lemma {:induction false} MessageHitComplete(env: Env, n: Notification, messages: seq<Message>, k: nat)
    requires k < |messages| && Matches(env, n, messages[k])
    ensures var hits := MessageHits(env, n, messages);
            hits != [] && (|hits| == 1 ==> hits[0] == k)
    ensures messages[k].handle in HitHandles(env, n, messages)
  {
    if k < |messages| - 1 {
      MessageHitComplete(env, n, messages[..|messages| - 1], k);
    }
  }

  lemma {:induction false} NotificationHitComplete(env: Env, notifications: seq<Notification>, m: Message, k: nat)
    requires k < |notifications| && Matches(env, notifications[k], m)
    ensures var hits := NotificationHits(env, notifications, m);
            hits != [] && (|hits| == 1 ==> hits[0] == k)
  {
    if k < |notifications| - 1 {
      NotificationHitComplete(env, notifications[..|notifications| - 1], m, k);
    }
  }

  /** The position of the notification with this UID, or the length. */
  function IndexOfUid(notifications: seq<Notification>, uid: Uid): (k: nat)
    ensures k <= |notifications|
    ensures k < |notifications| ==> notifications[k].uid == uid
    ensures forall i :: 0 <= i < k ==> notifications[i].uid != uid
  {
    if notifications == [] then 0
    else if notifications[0].uid == uid then 0
    else
      var k := IndexOfUid(notifications[1..], uid);
      assert forall i :: 1 <= i < k + 1 ==> notifications[i] == notifications[1..][i - 1];
      k + 1
  }

  predicate HandleKnown(messages: seq<Message>, handle: Handle) {
    exists i :: 0 <= i < |messages| && messages[i].handle == handle
  }

  function RemoveAt<T>(s: seq<T>, i: nat): (r: seq<T>)
    requires i < |s|
  {
    s[..i] + s[i + 1..]
  }

  // ---- the correlator as a state machine ----

  datatype Correlator = Correlator(
    notifications: seq<Notification>, messages: seq<Message>, completed: seq<Uid>)

  datatype Outcome = Outcome(state: Correlator, result: Option<CorrelationResult>)

  const INITIAL := Correlator([], [], [])

  function Remember(completed: seq<Uid>, uid: Uid): seq<Uid> {
    Last(completed + [uid], MAX_COMPLETED)
  }

  function Observe(env: Env, s: Correlator, n: Notification): Outcome {
    if n.uid in s.completed then Outcome(s, None)
    else
      var at := IndexOfUid(s.notifications, n.uid);
      if at < |s.notifications| then Outcome(s.(notifications := s.notifications[at := n]), None)
      else
        var hits := MessageHits(env, n, s.messages);
        if |hits| == 1 then
          Outcome(s.(messages := RemoveAt(s.messages, hits[0]), completed := Remember(s.completed, n.uid)),
                  Some(CorrelatePair(env, n, s.messages[hits[0]])))
        else
          Outcome(s.(notifications := Last(s.notifications + [n], WINDOW)),
                  if |hits| > 1 then Some(Ambiguous(HitHandles(env, n, s.messages), n.observed)) else None)
  }

  function Correlate(env: Env, s: Correlator, m: Message): Outcome {
    var hits := NotificationHits(env, s.notifications, m);
    if |hits| == 1 then
      var n := s.notifications[hits[0]];
      Outcome(s.(notifications := RemoveAt(s.notifications, hits[0]), completed := Remember(s.completed, n.uid)),
              Some(CorrelatePair(env, n, m)))
    else if |hits| > 1 then Outcome(s, Some(Ambiguous([m.handle], m.observed)))
    else if HandleKnown(s.messages, m.handle) then Outcome(s, Some(Pending))
    else Outcome(s.(messages := Last(s.messages + [m], WINDOW)), Some(Pending))
  }

  class AncsMapCorrelator {
    var notifications: seq<Notification>
    var messages: seq<Message>
    var completed: seq<Uid>
    const env: Env

    function View(): Correlator
      reads this
    {
      Correlator(notifications, messages, completed)
    }

    constructor (env: Env)
      ensures View() == INITIAL && this.env == env
    {
      notifications, messages, completed := [], [], [];
      this.env := env;
    }

    method ObserveAncs(n: Notification) returns (r: Option<CorrelationResult>)
      modifies this
      ensures Observe(env, old(View()), n) == Outcome(View(), r)
    {
      if n.uid in completed {
        return None;
      }
      var existing := FindUid(n.uid);
      if existing < |notifications| {
        notifications := notifications[existing := n];
        return None;
      }
      var candidates, handles := MessageCandidates(n);
      if |candidates| == 1 {
        var m := messages[candidates[0]];
        messages := RemoveAt(messages, candidates[0]);
        RememberCompleted(n.uid);
        return Some(CorrelatePair(env, n, m));
      }
      ghost var pushed := notifications + [n];
      notifications := notifications + [n];
      while |notifications| > WINDOW
        invariant Last(notifications, WINDOW) == Last(pushed, WINDOW)
        invariant messages == old(messages) && completed == old(completed)
      {
        notifications := notifications[1..];
      }
      return if |candidates| > 1 then Some(Ambiguous(handles, n.observed)) else None;
    }

    method CorrelateMap(m: Message) returns (r: CorrelationResult)
      modifies this
      ensures Correlate(env, old(View()), m) == Outcome(View(), Some(r))
    {
      var candidates := NotificationCandidates(m);
      if |candidates| != 1 {
        var known := HandleBuffered(m.handle);
        if candidates == [] && !known {
          BufferMessage(m);
        }
        return if candidates == [] then Pending else Ambiguous([m.handle], m.observed);
      }
      var n := notifications[candidates[0]];
      notifications := RemoveAt(notifications, candidates[0]);
      RememberCompleted(n.uid);
      return CorrelatePair(env, n, m);
    }

    /** Appends a message and drops the oldest beyond the window. */
    method BufferMessage(m: Message)
      modifies this
      ensures View() == old(View()).(messages := Last(old(messages) + [m], WINDOW))
    {
      ghost var pushed := messages + [m];
      messages := messages + [m];
      while |messages| > WINDOW
        invariant Last(messages, WINDOW) == Last(pushed, WINDOW)
        invariant notifications == old(notifications) && completed == old(completed)
      {
        messages := messages[1..];
      }
    }

    method FindUid(uid: Uid) returns (at: nat)
      ensures at == IndexOfUid(notifications, uid)
    {
      at := 0;
      while at < |notifications| && notifications[at].uid != uid
        invariant at <= |notifications|
        invariant forall k :: 0 <= k < at ==> notifications[k].uid != uid
      {
        at := at + 1;
      }
    }

    method MessageCandidates(n: Notification) returns (hits: seq<nat>, handles: seq<Handle>)
      ensures hits == MessageHits(env, n, messages)
      ensures handles == HitHandles(env, n, messages)
    {
      hits, handles := [], [];
      for i := 0 to |messages|
        invariant hits == MessageHits(env, n, messages[..i])
        invariant handles == HitHandles(env, n, messages[..i])
      {
        MessageHitsSnoc(env, n, messages, i);
        if Matches(env, n, messages[i]) {
          hits, handles := hits + [i], handles + [messages[i].handle];
        }
      }
      assert messages[..|messages|] == messages;
    }

    method NotificationCandidates(m: Message) returns (hits: seq<nat>)
      ensures hits == NotificationHits(env, notifications, m)
    {
      hits := [];
      for i := 0 to |notifications|
        invariant hits == NotificationHits(env, notifications[..i], m)
      {
        assert notifications[..i + 1][..i] == notifications[..i];
        if Matches(env, notifications[i], m) {
          hits := hits + [i];
        }
      }
      assert notifications[..|notifications|] == notifications;
    }

    method HandleBuffered(handle: Handle) returns (known: bool)
      ensures known <==> HandleKnown(messages, handle)
    {
      known := false;
      for i := 0 to |messages|
        invariant known <==> exists k :: 0 <= k < i && messages[k].handle == handle
      {
        if messages[i].handle == handle {
          known := true;
        }
      }
    }

    method RememberCompleted(uid: Uid)
      modifies this
      ensures View() == old(View()).(completed := Remember(old(completed), uid))
    {
      ghost var pushed := completed + [uid];
      completed := completed + [uid];
      while |completed| > MAX_COMPLETED
        invariant Last(completed, MAX_COMPLETED) == Last(pushed, MAX_COMPLETED)
        invariant messages == old(messages) && notifications == old(notifications)
      {
        completed := completed[1..];
      }
    }
  }

  // ---- every reachable state ----

  datatype Event = Ancs(n: Notification) | Map(m: Message)

  function Step(env: Env, s: Correlator, e: Event): Outcome {
    match e
    case Ancs(n) => Observe(env, s, n)
    case Map(m) => Correlate(env, s, m)
  }

  ghost function Run(env: Env, events: seq<Event>): Correlator {
    if events == [] then INITIAL
    else Step(env, Run(env, events[..|events| - 1]), events[|events| - 1]).state
  }

  /** What the `i`-th event of a run returned. */
  ghost function ResultAt(env: Env, events: seq<Event>, i: nat): Option<CorrelationResult>
    requires i < |events|
  {
    Step(env, Run(env, events[..i]), events[i]).result
  }

  ghost predicate DistinctUids(notifications: seq<Notification>) {
    forall i, j :: 0 <= i < j < |notifications| ==> notifications[i].uid != notifications[j].uid
  }

  ghost predicate NoneCompleted(notifications: seq<Notification>, completed: seq<Uid>) {
    forall i :: 0 <= i < |notifications| ==> notifications[i].uid !in completed
  }

  ghost predicate DistinctHandles(messages: seq<Message>) {
    forall i, j :: 0 <= i < j < |messages| ==> messages[i].handle != messages[j].handle
  }

  ghost predicate Consistent(s: Correlator) {
    && DistinctUids(s.notifications)
    && NoneCompleted(s.notifications, s.completed)
    && DistinctHandles(s.messages)
    && |s.notifications| <= WINDOW && |s.messages| <= WINDOW && |s.completed| <= MAX_COMPLETED
  }

  lemma {:induction false} PushNotification(notifications: seq<Notification>, completed: seq<Uid>, n: Notification)
    requires DistinctUids(notifications) && NoneCompleted(notifications, completed)
    requires n.uid !in completed && forall i :: 0 <= i < |notifications| ==> notifications[i].uid != n.uid
    ensures var r := Last(notifications + [n], WINDOW); DistinctUids(r) && NoneCompleted(r, completed)
  {
  }

  lemma {:induction false} ReplaceNotification(notifications: seq<Notification>, completed: seq<Uid>, at: nat, n: Notification)
    requires DistinctUids(notifications) && NoneCompleted(notifications, completed)
    requires at < |notifications| && notifications[at].uid == n.uid
    ensures var r := notifications[at := n]; DistinctUids(r) && NoneCompleted(r, completed)
  {
  }

  lemma {:induction false} CompleteNotification(notifications: seq<Notification>, completed: seq<Uid>, at: nat)
    requires DistinctUids(notifications) && NoneCompleted(notifications, completed)
    requires at < |notifications|
    ensures var r := RemoveAt(notifications, at);
            DistinctUids(r) && NoneCompleted(r, Remember(completed, notifications[at].uid))
  {
    var r := RemoveAt(notifications, at);
    assert forall k :: 0 <= k < |r| ==> r[k] == notifications[if k < at then k else k + 1];
  }

  lemma {:induction false} RememberOther(notifications: seq<Notification>, completed: seq<Uid>, uid: Uid)
    requires NoneCompleted(notifications, completed)
    requires forall i :: 0 <= i < |notifications| ==> notifications[i].uid != uid
    ensures NoneCompleted(notifications, Remember(completed, uid))
  {
  }

  lemma {:induction false} RemoveMessage(messages: seq<Message>, at: nat)
    requires DistinctHandles(messages) && at < |messages|
    ensures DistinctHandles(RemoveAt(messages, at))
  {
    var r := RemoveAt(messages, at);
    assert forall k :: 0 <= k < |r| ==> r[k] == messages[if k < at then k else k + 1];
  }

  lemma {:induction false} PushMessage(messages: seq<Message>, m: Message)
    requires DistinctHandles(messages) && !HandleKnown(messages, m.handle)
    ensures DistinctHandles(Last(messages + [m], WINDOW))
  {
  }

  lemma {:induction false} ObserveConsistent(env: Env, s: Correlator, n: Notification)
    requires Consistent(s)
    ensures Consistent(Observe(env, s, n).state)
  {
    if n.uid !in s.completed {
      var at := IndexOfUid(s.notifications, n.uid);
      var hits := MessageHits(env, n, s.messages);
      if at < |s.notifications| {
        ReplaceNotification(s.notifications, s.completed, at, n);
      } else if |hits| == 1 {
        RemoveMessage(s.messages, hits[0]);
        RememberOther(s.notifications, s.completed, n.uid);
      } else {
        PushNotification(s.notifications, s.completed, n);
      }
    }
  }

  lemma {:induction false} CorrelateConsistent(env: Env, s: Correlator, m: Message)
    requires Consistent(s)
    ensures Consistent(Correlate(env, s, m).state)
  {
    var hits := NotificationHits(env, s.notifications, m);
    if |hits| == 1 {
      CompleteNotification(s.notifications, s.completed, hits[0]);
    } else if hits == [] && !HandleKnown(s.messages, m.handle) {
      PushMessage(s.messages, m);
    }
  }

  /** In every reachable state buffered UIDs are distinct and disjoint from the
      completed ones, buffered handles are distinct, and the bounds hold. */
  lemma {:induction false} RunConsistent(env: Env, events: seq<Event>)
    ensures Consistent(Run(env, events))
  {
    if events != [] {
      var init := events[..|events| - 1];
      RunConsistent(env, init);
      match events[|events| - 1]
      case Ancs(n) => ObserveConsistent(env, Run(env, init), n);
      case Map(m) => CorrelateConsistent(env, Run(env, init), m);
    }
  }

  lemma {:induction false} LastMember<T>(s: seq<T>, y: T, n: nat, x: T)
    requires x in Last(s + [y], n)
    ensures x in s || x == y
  {
  }

  lemma {:induction false} ReplacedMember(notifications: seq<Notification>, at: nat, e: Notification, n: Notification)
    requires DistinctUids(notifications) && at < |notifications| && notifications[at].uid == e.uid
    requires n in notifications[at := e]
    ensures if e.uid == n.uid then e == n else n in notifications
  {
    var after := notifications[at := e];
    var k :| 0 <= k < |after| && after[k] == n;
  }

  lemma {:induction false} ObserveNotification(env: Env, s: Correlator, e: Notification, n: Notification)
    requires Consistent(s) && n in Observe(env, s, e).state.notifications
    ensures if e.uid == n.uid then e == n else n in s.notifications
  {
    if e.uid !in s.completed {
      var at := IndexOfUid(s.notifications, e.uid);
      if at < |s.notifications| {
        ReplacedMember(s.notifications, at, e, n);
      } else if |MessageHits(env, e, s.messages)| != 1 {
        LastMember(s.notifications, e, WINDOW, n);
      }
    }
  }

  lemma {:induction false} CorrelateNotification(env: Env, s: Correlator, m: Message, n: Notification)
    requires n in Correlate(env, s, m).state.notifications
    ensures n in s.notifications
  {
  }

  lemma {:induction false} StepNotification(env: Env, s: Correlator, e: Event, n: Notification)
    requires Consistent(s) && n in Step(env, s, e).state.notifications
    ensures if e.Ancs? && e.n.uid == n.uid then e.n == n else n in s.notifications
  {
    match e
    case Ancs(x) => ObserveNotification(env, s, x, n);
    case Map(m) => CorrelateNotification(env, s, m, n);
  }

  lemma {:induction false} StepMessage(env: Env, s: Correlator, e: Event, m: Message)
    requires m in Step(env, s, e).state.messages
    ensures m in s.messages || (e == Map(m) && NotificationHits(env, s.notifications, m) == [])
  {
    var s' := Step(env, s, e).state;
    var k :| 0 <= k < |s'.messages| && s'.messages[k] == m;
  }

  /** Only what was presented is ever buffered. */
  lemma {:induction false} NotificationWasPresented(env: Env, events: seq<Event>, n: Notification)
    requires n in Run(env, events).notifications
    ensures Ancs(n) in events
  {
    var init, e := events[..|events| - 1], events[|events| - 1];
    RunConsistent(env, init);
    StepNotification(env, Run(env, init), e, n);
    if e != Ancs(n) {
      NotificationWasPresented(env, init, n);
    }
  }

  lemma {:induction false} MessageWasPresented(env: Env, events: seq<Event>, m: Message)
    requires m in Run(env, events).messages
    ensures Map(m) in events
  {
    var init, e := events[..|events| - 1], events[|events| - 1];
    StepMessage(env, Run(env, init), e, m);
    if e != Map(m) {
      MessageWasPresented(env, init, m);
    }
  }

  // ---- one-to-one correlation ----

  datatype Pair = Pair(handle: Handle, uid: Uid)

  ghost function Resolved(log: seq<Pair>, r: Option<CorrelationResult>): seq<Pair> {
    if r.Some? && r.value.Resolved() then log + [Pair(r.value.handle, r.value.uid)] else log
  }

  /** The pairs a run resolved, oldest first. */
  ghost function Resolutions(env: Env, events: seq<Event>): seq<Pair> {
    if events == [] then []
    else
      var init := events[..|events| - 1];
      Resolved(Resolutions(env, init), Step(env, Run(env, init), events[|events| - 1]).result)
  }

  lemma {:induction false} RunSnoc(env: Env, init: seq<Event>, e: Event, s: Correlator, out: Outcome)
    requires Run(env, init) == s && Step(env, s, e) == out
    ensures Run(env, init + [e]) == out.state
    ensures Resolutions(env, init + [e]) == Resolved(Resolutions(env, init), out.result)
  {
    assert (init + [e])[..|init|] == init;
  }

  ghost function Uids(pairs: seq<Pair>): (r: seq<Uid>)
    ensures |r| == |pairs|
    ensures forall i :: 0 <= i < |r| ==> r[i] == pairs[i].uid
  {
    seq(|pairs|, i requires 0 <= i < |pairs| => pairs[i].uid)
  }

  lemma {:induction false} StepCompleted(env: Env, s: Correlator, e: Event)
    ensures var out := Step(env, s, e);
            out.state.completed == if out.result.Some? && out.result.value.Resolved()
                                   then Remember(s.completed, out.result.value.uid) else s.completed
  {
  }

  lemma {:induction false} CompletedTailStep(completed: seq<Uid>, log: seq<Pair>, pair: Pair)
    requires completed == Last(Uids(log), MAX_COMPLETED)
    ensures Remember(completed, pair.uid) == Last(Uids(log + [pair]), MAX_COMPLETED)
  {
    LastPush(Uids(log), MAX_COMPLETED, pair.uid);
    assert Uids(log + [pair]) == Uids(log) + [pair.uid];
  }

  lemma {:induction false} CompletedIsTail(env: Env, events: seq<Event>)
    ensures Run(env, events).completed == Last(Uids(Resolutions(env, events)), MAX_COMPLETED)
  {
    if events != [] {
      var init, e := events[..|events| - 1], events[|events| - 1];
      CompletedIsTail(env, init);
      var s, log := Run(env, init), Resolutions(env, init);
      StepCompleted(env, s, e);
      var r := Step(env, s, e).result;
      if r.Some? && r.value.Resolved() {
        CompletedTailStep(s.completed, log, Pair(r.value.handle, r.value.uid));
      }
    }
  }

  lemma {:induction false} ResolvedUidIsNew(env: Env, s: Correlator, e: Event)
    requires Consistent(s)
    requires Step(env, s, e).result.Some? && Step(env, s, e).result.value.Resolved()
    ensures Step(env, s, e).result.value.uid !in s.completed
  {
  }

  /** A resolved UID differs from each of the 64 resolved before it. */
  lemma {:induction false} ResolvedUidsDistinct(env: Env, events: seq<Event>, a: nat, b: nat)
    requires a < b < |Resolutions(env, events)| && b - a <= MAX_COMPLETED
    ensures Resolutions(env, events)[a].uid != Resolutions(env, events)[b].uid
    decreases |events|
  {
    var init, e := events[..|events| - 1], events[|events| - 1];
    var log := Resolutions(env, init);
    if b < |log| {
      ResolvedUidsDistinct(env, init, a, b);
    } else {
      RunConsistent(env, init);
      CompletedIsTail(env, init);
      ResolvedUidIsNew(env, Run(env, init), e);
      LastContains(Uids(log), MAX_COMPLETED, a);
    }
  }

  ghost predicate HandleResolved(log: seq<Pair>, h: Handle) {
    exists a :: 0 <= a < |log| && log[a].handle == h
  }

  /** No handle is resolved twice, and none is both resolved and waiting. */
  ghost predicate Ledger(messages: seq<Message>, log: seq<Pair>) {
    && (forall a, b :: 0 <= a < b < |log| ==> log[a].handle != log[b].handle)
    && (forall h :: HandleResolved(log, h) ==> !HandleKnown(messages, h))
  }

  /** A message presented again at the wrong time: its handle is resolved already and it
      would wait or be paired again, or it is paired while its first copy still waits. */
  ghost predicate Repeats(env: Env, s: Correlator, log: seq<Pair>, e: Event) {
    e.Map? &&
    var hits, h := NotificationHits(env, s.notifications, e.m), e.m.handle;
    || (|hits| == 1 && (HandleResolved(log, h) || HandleKnown(s.messages, h)))
    || (hits == [] && HandleResolved(log, h))
  }

  lemma {:induction false} ResolvedGrows(log: seq<Pair>, pair: Pair, h: Handle)
    ensures HandleResolved(log + [pair], h) <==> HandleResolved(log, h) || h == pair.handle
  {
    var all := log + [pair];
    assert all[|log|] == pair;
    if HandleResolved(log, h) {
      var a :| 0 <= a < |log| && log[a].handle == h;
      assert all[a].handle == h;
    }
  }

  /** Resolving `pair` leaves the ledger in order exactly when its handle is new to it
      and does not go on waiting. */
  lemma {:induction false} LedgerResolves(messages: seq<Message>, after: seq<Message>, log: seq<Pair>, pair: Pair)
    requires Ledger(messages, log)
    requires forall h :: HandleKnown(after, h) ==> HandleKnown(messages, h)
    ensures Ledger(after, log + [pair]) <==> !HandleResolved(log, pair.handle) && !HandleKnown(after, pair.handle)
  {
    var all := log + [pair];
    forall h ensures HandleResolved(all, h) <==> HandleResolved(log, h) || h == pair.handle {
      ResolvedGrows(log, pair, h);
    }
    assert all[|log|] == pair;
    if HandleResolved(log, pair.handle) {
      var a :| 0 <= a < |log| && log[a].handle == pair.handle;
      assert all[a].handle == all[|log|].handle;
    }
  }

  lemma {:induction false} RemovedHandles(messages: seq<Message>, at: nat, h: Handle)
    requires DistinctHandles(messages) && at < |messages|
    ensures HandleKnown(RemoveAt(messages, at), h) <==> HandleKnown(messages, h) && h != messages[at].handle
  {
    var after := RemoveAt(messages, at);
    assert forall k :: 0 <= k < |after| ==> after[k] == messages[if k < at then k else k + 1];
    if HandleKnown(messages, h) && h != messages[at].handle {
      var k :| 0 <= k < |messages| && messages[k].handle == h;
      assert after[if k < at then k else k - 1].handle == h;
    }
  }

  lemma {:induction false} ObserveKeepsLedger(env: Env, s: Correlator, log: seq<Pair>, n: Notification)
    requires Consistent(s) && Ledger(s.messages, log)
    ensures var out := Observe(env, s, n); Ledger(out.state.messages, Resolved(log, out.result))
  {
    var out := Observe(env, s, n);
    if out.result.Some? && out.result.value.Resolved() {
      var at := MessageHits(env, n, s.messages)[0];
      forall h ensures HandleKnown(out.state.messages, h) <==> HandleKnown(s.messages, h) && h != s.messages[at].handle {
        RemovedHandles(s.messages, at, h);
      }
      assert HandleKnown(s.messages, s.messages[at].handle);
      LedgerResolves(s.messages, out.state.messages, log, Pair(s.messages[at].handle, n.uid));
    }
  }

  /** A waiting message joins the end of the queue. */
  lemma {:induction false} PushedHandles(messages: seq<Message>, m: Message, h: Handle)
    ensures var after := Last(messages + [m], WINDOW);
            && HandleKnown(after, m.handle)
            && (HandleKnown(after, h) ==> HandleKnown(messages, h) || h == m.handle)
  {
    var all := messages + [m];
    var after := Last(all, WINDOW);
    assert after[|after| - 1] == m;
    if HandleKnown(after, h) && h != m.handle {
      var k :| 0 <= k < |after| && after[k].handle == h;
      assert messages[k + |all| - |after|].handle == h;
    }
  }

  lemma {:induction false} WaitingLedger(messages: seq<Message>, log: seq<Pair>, m: Message)
    requires Ledger(messages, log)
    ensures Ledger(Last(messages + [m], WINDOW), log) <==> !HandleResolved(log, m.handle)
  {
    forall h
      ensures var after := Last(messages + [m], WINDOW);
              && HandleKnown(after, m.handle)
              && (HandleKnown(after, h) ==> HandleKnown(messages, h) || h == m.handle)
    {
      PushedHandles(messages, m, h);
    }
  }

  lemma {:induction false} CorrelateKeepsLedger(env: Env, s: Correlator, log: seq<Pair>, m: Message)
    requires Ledger(s.messages, log)
    ensures var out := Correlate(env, s, m);
            Ledger(out.state.messages, Resolved(log, out.result)) <==> !Repeats(env, s, log, Map(m))
  {
    var hits := NotificationHits(env, s.notifications, m);
    if |hits| == 1 {
      LedgerResolves(s.messages, s.messages, log, Pair(m.handle, s.notifications[hits[0]].uid));
    } else if hits == [] && !HandleKnown(s.messages, m.handle) {
      WaitingLedger(s.messages, log, m);
    }
  }

  /** One-to-one, step by step: from a ledger in order, a step leaves it in order exactly
      when it does not repeat a message at the wrong time. */
  lemma {:induction false} StepKeepsLedger(env: Env, s: Correlator, log: seq<Pair>, e: Event)
    requires Consistent(s) && Ledger(s.messages, log)
    ensures var out := Step(env, s, e);
            Ledger(out.state.messages, Resolved(log, out.result)) <==> !Repeats(env, s, log, e)
  {
    match e
    case Ancs(n) => ObserveKeepsLedger(env, s, log, n);
    case Map(m) => CorrelateKeepsLedger(env, s, log, m);
  }

  /** The ledger after the first `k` events. */
  ghost predicate LedgerAt(env: Env, events: seq<Event>, k: nat)
    requires k <= |events|
  {
    Ledger(Run(env, events[..k]).messages, Resolutions(env, events[..k]))
  }

  ghost predicate RepeatsAt(env: Env, events: seq<Event>, k: nat)
    requires k < |events|
  {
    Repeats(env, Run(env, events[..k]), Resolutions(env, events[..k]), events[k])
  }

  ghost predicate NeverRepeats(env: Env, events: seq<Event>) {
    forall k :: 0 <= k < |events| ==> !RepeatsAt(env, events, k)
  }

  lemma {:induction false} LedgerSnoc(env: Env, init: seq<Event>, e: Event, s: Correlator, log: seq<Pair>)
    requires Run(env, init) == s && Resolutions(env, init) == log && Ledger(s.messages, log)
    ensures Ledger(Run(env, init + [e]).messages, Resolutions(env, init + [e])) <==> !Repeats(env, s, log, e)
  {
    RunConsistent(env, init);
    StepKeepsLedger(env, s, log, e);
    RunSnoc(env, init, e, s, Step(env, s, e));
  }

  lemma {:induction false} LedgerNext(env: Env, events: seq<Event>, k: nat)
    requires k < |events| && LedgerAt(env, events, k)
    ensures LedgerAt(env, events, k + 1) <==> !RepeatsAt(env, events, k)
  {
    LedgerSnoc(env, events[..k], events[k], Run(env, events[..k]), Resolutions(env, events[..k]));
    assert events[..k + 1] == events[..k] + [events[k]];
  }

  lemma {:induction false} LedgerReaches(env: Env, events: seq<Event>, k: nat)
    requires k <= |events| && forall i :: 0 <= i < k ==> !RepeatsAt(env, events, i)
    ensures LedgerAt(env, events, k)
  {
    if k > 0 {
      LedgerReaches(env, events, k - 1);
      LedgerNext(env, events, k - 1);
    }
  }

  /** One-to-one, over whole runs: the ledger is in order throughout a run exactly when
      no message is repeated at the wrong time. */
  lemma {:induction false} LedgerExactly(env: Env, events: seq<Event>)
    ensures (forall k :: 0 <= k <= |events| ==> LedgerAt(env, events, k)) <==> NeverRepeats(env, events)
  {
    if forall k :: 0 <= k <= |events| ==> LedgerAt(env, events, k) {
      forall k | 0 <= k < |events| ensures !RepeatsAt(env, events, k) {
        LedgerNext(env, events, k);
        assert LedgerAt(env, events, k + 1);
      }
    }
    if NeverRepeats(env, events) {
      forall k | 0 <= k <= |events| ensures LedgerAt(env, events, k) {
        LedgerReaches(env, events, k);
      }
    }
  }

  /** So no handle is resolved twice, and none waits once it is resolved. Presenting a
      waiting message again is harmless as long as nothing matches it alone. */
  lemma {:induction false} HandlesResolvedOnce(env: Env, events: seq<Event>)
    requires NeverRepeats(env, events)
    ensures Ledger(Run(env, events).messages, Resolutions(env, events))
  {
    LedgerReaches(env, events, |events|);
    assert events[..|events|] == events;
  }

  ghost predicate HandlesOnce(events: seq<Event>) {
    forall i, j :: 0 <= i < j < |events| && events[i].Map? && events[j].Map? ==>
      events[i].m.handle != events[j].m.handle
  }

  ghost predicate Presented(events: seq<Event>, h: Handle) {
    exists i :: 0 <= i < |events| && events[i].Map? && events[i].m.handle == h
  }

  lemma {:induction false} KnownWasPresented(env: Env, events: seq<Event>, h: Handle)
    requires HandleKnown(Run(env, events).messages, h)
    ensures Presented(events, h)
  {
    var messages := Run(env, events).messages;
    var k :| 0 <= k < |messages| && messages[k].handle == h;
    MessageWasPresented(env, events, messages[k]);
    var i :| 0 <= i < |events| && events[i] == Map(messages[k]);
  }

  lemma {:induction false} ResolvedHandle(env: Env, s: Correlator, e: Event)
    requires var r := Step(env, s, e).result; r.Some? && r.value.Resolved()
    ensures var h := Step(env, s, e).result.value.handle;
            if e.Map? then h == e.m.handle else HandleKnown(s.messages, h)
  {
  }

  lemma {:induction false} ResolvedWasPresented(env: Env, events: seq<Event>, a: nat)
    requires a < |Resolutions(env, events)|
    ensures Presented(events, Resolutions(env, events)[a].handle)
  {
    var init, e := events[..|events| - 1], events[|events| - 1];
    var h := Resolutions(env, events)[a].handle;
    if a < |Resolutions(env, init)| {
      ResolvedWasPresented(env, init, a);
      PresentedEarlier(events, |init|, h);
    } else {
      ResolvedHandle(env, Run(env, init), e);
      if e.Ancs? {
        KnownWasPresented(env, init, h);
        PresentedEarlier(events, |init|, h);
      }
    }
  }

  lemma {:induction false} PresentedEarlier(events: seq<Event>, k: nat, h: Handle)
    requires k <= |events| && Presented(events[..k], h)
    ensures Presented(events, h)
  {
    var i :| 0 <= i < k && events[..k][i].Map? && events[..k][i].m.handle == h;
    assert events[i] == events[..k][i];
  }

  lemma {:induction false} NewHandle(events: seq<Event>, k: nat)
    requires HandlesOnce(events) && k < |events| && events[k].Map?
    ensures !Presented(events[..k], events[k].m.handle)
  {
    forall i | 0 <= i < k && events[..k][i].Map? ensures events[..k][i].m.handle != events[k].m.handle {
      assert events[i] == events[..k][i];
    }
  }

  /** A run that presents each handle at most once never repeats. */
  lemma {:induction false} HandlesOnceNeverRepeats(env: Env, events: seq<Event>)
    requires HandlesOnce(events)
    ensures NeverRepeats(env, events)
  {
    forall k | 0 <= k < |events| ensures !RepeatsAt(env, events, k) {
      if RepeatsAt(env, events, k) {
        NewHandle(events, k);
        var h, log := events[k].m.handle, Resolutions(env, events[..k]);
        if HandleResolved(log, h) {
          var a :| 0 <= a < |log| && log[a].handle == h;
          ResolvedWasPresented(env, events[..k], a);
        } else {
          KnownWasPresented(env, events[..k], h);
        }
      }
    }
  }

  lemma {:induction false} LoneMessageWaits(env: Env, completed: seq<Uid>, m: Message)
    ensures Correlate(env, Correlator([], [], completed), m) == Outcome(Correlator([], [m], completed), Some(Pending))
  {
    assert [] + [m] == [m];
  }

  lemma {:induction false} LoneMessageResolves(env: Env, completed: seq<Uid>, n: Notification, m: Message)
    requires Matches(env, n, m) && n.uid !in completed
    ensures Observe(env, Correlator([], [m], completed), n)
         == Outcome(Correlator([], [], Remember(completed, n.uid)), Some(CorrelatePair(env, n, m)))
  {
    MessageHitsSnoc(env, n, [m], 0);
    assert [m][..1] == [m] && [m][..0] == [];
  }

  /** Where a run stands. */
  ghost predicate Reaches(env: Env, events: seq<Event>, s: Correlator, log: seq<Pair>) {
    Run(env, events) == s && Resolutions(env, events) == log
  }

  lemma {:induction false} ReachesNext(env: Env, events: seq<Event>, s: Correlator, log: seq<Pair>, e: Event, out: Outcome)
    requires Reaches(env, events, s, log) && Step(env, s, e) == out
    ensures Reaches(env, events + [e], out.state, Resolved(log, out.result))
  {
    RunSnoc(env, events, e, s, out);
  }

  /** A message with nothing buffered to match waits, and the first match resolves it. */
  lemma {:induction false} WaitThenResolve(
      env: Env, events: seq<Event>, completed: seq<Uid>, log: seq<Pair>, n: Notification, m: Message)
    requires Matches(env, n, m) && n.uid !in completed && Reaches(env, events, Correlator([], [], completed), log)
    ensures Reaches(env, events + [Map(m)] + [Ancs(n)], Correlator([], [], Remember(completed, n.uid)),
                    log + [Pair(m.handle, n.uid)])
  {
    var empty, waiting := Correlator([], [], completed), Correlator([], [m], completed);
    LoneMessageWaits(env, completed, m);
    ReachesNext(env, events, empty, log, Map(m), Outcome(waiting, Some(Pending)));
    LoneMessageResolves(env, completed, n, m);
    ReachesNext(env, events + [Map(m)], waiting, log, Ancs(n),
                Outcome(Correlator([], [], Remember(completed, n.uid)), Some(CorrelatePair(env, n, m))));
  }

  /** The first way to be resolved twice: a handle presented again after it was resolved
      is resolved again by the next matching notification. */
  lemma {:induction false} RepeatedHandleResolvesTwice(env: Env, n: Notification, other: Notification, m: Message)
    requires Matches(env, n, m) && Matches(env, other, m) && n.uid != other.uid
    ensures Resolutions(env, [] + [Map(m)] + [Ancs(n)] + [Map(m)] + [Ancs(other)])
         == [Pair(m.handle, n.uid)] + [Pair(m.handle, other.uid)]
  {
    WaitThenResolve(env, [], [], [], n, m);
    assert Remember([], n.uid) == [n.uid] && [] + [Pair(m.handle, n.uid)] == [Pair(m.handle, n.uid)];
    WaitThenResolve(env, [] + [Map(m)] + [Ancs(n)], [n.uid], [Pair(m.handle, n.uid)], other, m);
  }

  /** Two messages that match one notification: it waits with them, reported as ambiguous. */
  lemma {:induction false} BothWait(env: Env, n: Notification, a: Message, b: Message)
    requires Matches(env, n, a) && Matches(env, n, b)
    ensures Observe(env, Correlator([], [a, b], []), n)
         == Outcome(Correlator([n], [a, b], []), Some(Ambiguous([a.handle, b.handle], n.observed)))
  {
    var ms := [a, b];
    MessageHitsSnoc(env, n, ms, 0);
    MessageHitsSnoc(env, n, ms, 1);
    assert ms[..0] == [] && ms[..2] == ms;
    assert MessageHits(env, n, ms) == [0, 1] && HitHandles(env, n, ms) == [a.handle, b.handle];
    assert [] + [n] == [n];
  }

  lemma {:induction false} SecondMessageWaits(env: Env, a: Message, b: Message)
    requires a.handle != b.handle
    ensures Correlate(env, Correlator([], [a], []), b) == Outcome(Correlator([], [a, b], []), Some(Pending))
  {
    assert [a] + [b] == [a, b];
  }

  /** The start of the runs below. */
  lemma {:induction false} AmbiguousStart(env: Env, n: Notification, a: Message, b: Message)
    requires Matches(env, n, a) && Matches(env, n, b) && a.handle != b.handle
    ensures Reaches(env, [] + [Map(a)] + [Map(b)], Correlator([], [a, b], []), [])
    ensures Reaches(env, [] + [Map(a)] + [Map(b)] + [Ancs(n)], Correlator([n], [a, b], []), [])
  {
    var one, two := Correlator([], [a], []), Correlator([], [a, b], []);
    LoneMessageWaits(env, [], a);
    ReachesNext(env, [], INITIAL, [], Map(a), Outcome(one, Some(Pending)));
    SecondMessageWaits(env, a, b);
    ReachesNext(env, [] + [Map(a)], one, [], Map(b), Outcome(two, Some(Pending)));
    BothWait(env, n, a, b);
    ReachesNext(env, [] + [Map(a)] + [Map(b)], two, [], Ancs(n),
                Outcome(Correlator([n], [a, b], []), Some(Ambiguous([a.handle, b.handle], n.observed))));
  }

  /** A message that matches the only buffered notification takes it, whatever waits. */
  lemma {:induction false} MessageTakes(env: Env, n: Notification, waiting: seq<Message>, m: Message)
    requires Matches(env, n, m)
    ensures Correlate(env, Correlator([n], waiting, []), m)
         == Outcome(Correlator([], waiting, [n.uid]), Some(CorrelatePair(env, n, m)))
  {
    NotificationHitComplete(env, [n], m, 0);
    assert [n][..0] == [];
    assert NotificationHits(env, [n], m) == [0];
    assert RemoveAt([n], 0) == [] && [] + [n.uid] == [n.uid];
  }

  /** A notification that matches only the first of two waiting messages takes it,
      whatever else is buffered. */
  lemma {:induction false} NotificationTakes(
      env: Env, buffered: seq<Notification>, a: Message, b: Message, completed: seq<Uid>, k: Notification)
    requires Matches(env, k, a) && !Matches(env, k, b) && k.uid !in completed
    requires forall i :: 0 <= i < |buffered| ==> buffered[i].uid != k.uid
    ensures Observe(env, Correlator(buffered, [a, b], completed), k)
         == Outcome(Correlator(buffered, [b], Remember(completed, k.uid)), Some(CorrelatePair(env, k, a)))
  {
    var ms := [a, b];
    MessageHitsSnoc(env, k, ms, 0);
    MessageHitsSnoc(env, k, ms, 1);
    assert ms[..0] == [] && ms[..2] == ms;
    assert MessageHits(env, k, ms) == [0];
    assert RemoveAt(ms, 0) == [b];
  }

  /** A message presented again is paired with a notification while its first copy goes
      on waiting. */
  lemma {:induction false} CopyIsPaired(env: Env, n: Notification, a: Message, b: Message)
    requires Matches(env, n, a) && Matches(env, n, b) && a.handle != b.handle
    ensures Reaches(env, [] + [Map(a)] + [Map(b)] + [Ancs(n)] + [Map(a)], Correlator([], [a, b], [n.uid]),
                    [Pair(a.handle, n.uid)])
  {
    AmbiguousStart(env, n, a, b);
    MessageTakes(env, n, [a, b], a);
    ReachesNext(env, [] + [Map(a)] + [Map(b)] + [Ancs(n)], Correlator([n], [a, b], []), [], Map(a),
                Outcome(Correlator([], [a, b], [n.uid]), Some(CorrelatePair(env, n, a))));
    assert [] + [Pair(a.handle, n.uid)] == [Pair(a.handle, n.uid)];
  }

  lemma {:induction false} CopyIsPairedAgain(
      env: Env, events: seq<Event>, uid: Uid, log: seq<Pair>, k: Notification, a: Message, b: Message)
    requires Reaches(env, events, Correlator([], [a, b], [uid]), log)
    requires Matches(env, k, a) && !Matches(env, k, b) && k.uid != uid
    ensures Resolutions(env, events + [Ancs(k)]) == log + [Pair(a.handle, k.uid)]
  {
    NotificationTakes(env, [], a, b, [uid], k);
    ReachesNext(env, events, Correlator([], [a, b], [uid]), log, Ancs(k),
                Outcome(Correlator([], [b], Remember([uid], k.uid)), Some(CorrelatePair(env, k, a))));
  }

  /** The second way: the next match of the waiting copy resolves it too, although the
      message was never presented after a resolution. */
  lemma {:induction false} WaitingCopyResolvesTwice(
      env: Env, n: Notification, k: Notification, a: Message, b: Message)
    requires Matches(env, n, a) && Matches(env, n, b) && a.handle != b.handle
    requires Matches(env, k, a) && !Matches(env, k, b) && k.uid != n.uid
    ensures Resolutions(env, [] + [Map(a)] + [Map(b)] + [Ancs(n)] + [Map(a)] + [Ancs(k)])
         == [Pair(a.handle, n.uid)] + [Pair(a.handle, k.uid)]
  {
    CopyIsPaired(env, n, a, b);
    CopyIsPairedAgain(env, [] + [Map(a)] + [Map(b)] + [Ancs(n)] + [Map(a)], n.uid, [Pair(a.handle, n.uid)], k, a, b);
  }

  /** The pair behind a resolved result: the arriving one matched only its partner. */
  lemma {:induction false} ResolvedPair(env: Env, s: Correlator, e: Event) returns (n: Notification, m: Message)
    requires var r := Step(env, s, e).result; r.Some? && r.value.Resolved()
    ensures Matches(env, n, m) && Step(env, s, e).result == Some(CorrelatePair(env, n, m)) && OnlyMatch(env, s, e, n, m)
    ensures if e.Ancs? then n == e.n && m in s.messages else m == e.m && n in s.notifications
  {
    match e
    case Ancs(x) =>
      var k := MessageHits(env, x, s.messages)[0];
      n, m := x, s.messages[k];
      forall j | 0 <= j < |s.messages| && j != k ensures !Matches(env, n, s.messages[j]) {
        if Matches(env, n, s.messages[j]) {
          MessageHitComplete(env, n, s.messages, j);
        }
      }
    case Map(y) =>
      var k := NotificationHits(env, s.notifications, y)[0];
      n, m := s.notifications[k], y;
      forall j | 0 <= j < |s.notifications| && j != k ensures !Matches(env, s.notifications[j], m) {
        if Matches(env, s.notifications[j], m) {
          NotificationHitComplete(env, s.notifications, m, j);
        }
      }
  }

  /** The two agree in time, and in the label under which the message is shown. */
  ghost predicate Agree(env: Env, n: Notification, m: Message) {
    && m.observed - env.maxDelta <= n.observed <= m.observed + env.maxDelta
    && (m.displayName.Some? ==> env.normalize(n.title) == env.normalize(m.displayName.value))
    && (m.displayName.None? ==> env.normalize(n.title) == env.normalize(m.sender))
  }

  /** `r` records the pair: the message's handle and sender, the notification's UID, time
      and subtitle, and the group its normalized subtitle names, unless that is empty. */
  ghost predicate Records(env: Env, r: CorrelationResult, n: Notification, m: Message) {
    && r.Resolved() && r.handle == m.handle && r.uid == n.uid
    && (r.DirectCandidate? <==> env.normalize(n.subtitle) == "")
    && (r.Group? ==>
          && r.groupId == "ancs-v1-" + env.digest(env.normalize(n.subtitle))
          && r.displaySubtitle == n.subtitle && r.sender == m.sender && r.observed == n.observed)
  }

  /** Two groups on record have the same identifier exactly when the digests of their
      normalized subtitles are the same. */
  lemma {:induction false} SameGroupExactly(
      env: Env, a: CorrelationResult, n: Notification, m: Message, b: CorrelationResult, k: Notification, l: Message)
    requires a.Group? && Records(env, a, n, m) && b.Group? && Records(env, b, k, l)
    ensures a.groupId == b.groupId
       <==> env.digest(env.normalize(n.subtitle)) == env.digest(env.normalize(k.subtitle))
  {
    var x, y := env.digest(env.normalize(n.subtitle)), env.digest(env.normalize(k.subtitle));
    assert ("ancs-v1-" + x)[8..] == x && ("ancs-v1-" + y)[8..] == y;
  }

  /** `r` records a presented notification with a presented message that agree, the later
      of which is `e`, and `e` matched nothing else on the other side. */
  ghost predicate PairedFrom(env: Env, init: seq<Event>, e: Event, r: CorrelationResult, n: Notification, m: Message) {
    && Agree(env, n, m) && Records(env, r, n, m)
    && (if e.Ancs? then e.n == n && Map(m) in init else e.m == m && Ancs(n) in init)
    && OnlyMatch(env, Run(env, init), e, n, m)
  }

  lemma {:induction false} ResolvedPairFrom(env: Env, init: seq<Event>, e: Event) returns (n: Notification, m: Message)
    requires var r := Step(env, Run(env, init), e).result; r.Some? && r.value.Resolved()
    ensures PairedFrom(env, init, e, Step(env, Run(env, init), e).result.value, n, m)
  {
    n, m := ResolvedPair(env, Run(env, init), e);
    if e.Ancs? {
      MessageWasPresented(env, init, m);
    } else {
      NotificationWasPresented(env, init, n);
    }
  }

  /** Every resolved result of a run is such a pairing. */
  lemma {:induction false} ResolvedPairsMatch(env: Env, events: seq<Event>, i: nat)
    requires i < |events|
    requires ResultAt(env, events, i).Some? && ResultAt(env, events, i).value.Resolved()
    ensures exists n, m :: PairedFrom(env, events[..i], events[i], ResultAt(env, events, i).value, n, m)
  {
    var n, m := ResolvedPairFrom(env, events[..i], events[i]);
  }

  /** Of what is buffered on the other side when `e` arrives, exactly one matches it. */
  ghost predicate OnlyMatch(env: Env, s: Correlator, e: Event, n: Notification, m: Message) {
    match e
    case Ancs(x) =>
      x == n && exists k :: && 0 <= k < |s.messages| && s.messages[k] == m
                            && forall j :: 0 <= j < |s.messages| && j != k ==> !Matches(env, n, s.messages[j])
    case Map(y) =>
      y == m && exists k :: && 0 <= k < |s.notifications| && s.notifications[k] == n
                            && forall j :: 0 <= j < |s.notifications| && j != k ==> !Matches(env, s.notifications[j], m)
  }
}

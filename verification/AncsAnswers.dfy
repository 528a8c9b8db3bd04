/** What the correlator answers, said by counting the buffered candidates that agree with
    the arrival: none, exactly one, or several. */
module AncsAnswers {
  import opened Common
  import opened AncsGroups

  /** Matching is agreement in time and label. */
  lemma {:induction false} MatchesExactly(env: Env, n: Notification, m: Message)
    ensures Matches(env, n, m) <==> Agree(env, n, m)
  {
  }

  // ---- the candidates ----

  ghost predicate Ascending(p: seq<nat>, length: nat) {
    (forall i :: 0 <= i < |p| ==> p[i] < length) && forall i, j :: 0 <= i < j < |p| ==> p[i] < p[j]
  }

  /** `p` lists the positions of the messages that agree with `n`, each once, in order. */
  ghost predicate MessagePositions(env: Env, n: Notification, messages: seq<Message>, p: seq<nat>) {
    Ascending(p, |messages|) && forall k: nat :: k in p <==> k < |messages| && Agree(env, n, messages[k])
  }

  ghost predicate NotificationPositions(env: Env, notifications: seq<Notification>, m: Message, p: seq<nat>) {
    Ascending(p, |notifications|) && forall k: nat :: k in p <==> k < |notifications| && Agree(env, notifications[k], m)
  }

  lemma {:induction false} PositionsSnoc(p: seq<nat>, at: nat, hit: bool)
    requires Ascending(p, at)
    ensures var q := p + (if hit then [at] else []);
            Ascending(q, at + 1) && forall k: nat :: k in q <==> k in p || (hit && k == at)
  {
  }

  lemma {:induction false} MessagePositionsSnoc(env: Env, n: Notification, init: seq<Message>, m: Message, p: seq<nat>)
    requires MessagePositions(env, n, init, p)
    ensures MessagePositions(env, n, init + [m], p + (if Agree(env, n, m) then [|init|] else []))
  {
    PositionsSnoc(p, |init|, Agree(env, n, m));
    assert (init + [m])[|init|] == m && forall k :: 0 <= k < |init| ==> (init + [m])[k] == init[k];
  }

  lemma {:induction false} MessageHitsExact(env: Env, n: Notification, messages: seq<Message>)
    ensures MessagePositions(env, n, messages, MessageHits(env, n, messages))
  {
    if messages != [] {
      var init, last := messages[..|messages| - 1], messages[|messages| - 1];
      MessageHitsExact(env, n, init);
      MatchesExactly(env, n, last);
      MessagePositionsSnoc(env, n, init, last, MessageHits(env, n, init));
      assert messages == init + [last];
    }
  }

  lemma {:induction false} NotificationPositionsSnoc(
      env: Env, init: seq<Notification>, n: Notification, m: Message, p: seq<nat>)
    requires NotificationPositions(env, init, m, p)
    ensures NotificationPositions(env, init + [n], m, p + (if Agree(env, n, m) then [|init|] else []))
  {
    PositionsSnoc(p, |init|, Agree(env, n, m));
    assert (init + [n])[|init|] == n && forall k :: 0 <= k < |init| ==> (init + [n])[k] == init[k];
  }

  lemma {:induction false} NotificationHitsExact(env: Env, notifications: seq<Notification>, m: Message)
    ensures NotificationPositions(env, notifications, m, NotificationHits(env, notifications, m))
  {
    if notifications != [] {
      var init, last := notifications[..|notifications| - 1], notifications[|notifications| - 1];
      NotificationHitsExact(env, init, m);
      MatchesExactly(env, last, m);
      NotificationPositionsSnoc(env, init, last, m, NotificationHits(env, init, m));
      assert notifications == init + [last];
    }
  }

  /** The handles of the messages at these positions, in order. */
  ghost predicate HandlesAt(handles: seq<Handle>, messages: seq<Message>, p: seq<nat>) {
    |handles| == |p| && forall i :: 0 <= i < |p| ==> p[i] < |messages| && handles[i] == messages[p[i]].handle
  }

  lemma {:induction false} HandlesAtSnoc(handles: seq<Handle>, init: seq<Message>, m: Message, p: seq<nat>, hit: bool)
    requires HandlesAt(handles, init, p)
    ensures HandlesAt(handles + (if hit then [m.handle] else []), init + [m], p + (if hit then [|init|] else []))
  {
  }

  lemma {:induction false} HitHandlesAt(env: Env, n: Notification, messages: seq<Message>)
    ensures HandlesAt(HitHandles(env, n, messages), messages, MessageHits(env, n, messages))
  {
    if messages != [] {
      var init, last := messages[..|messages| - 1], messages[|messages| - 1];
      HitHandlesAt(env, n, init);
      HandlesAtSnoc(HitHandles(env, n, init), init, last, MessageHits(env, n, init), Matches(env, n, last));
      assert messages == init + [last];
    }
  }

  /** Positions that all lie at `k` are exactly `[k]`. */
  lemma {:induction false} OnlyPosition(p: seq<nat>, length: nat, k: nat)
    requires Ascending(p, length) && k in p && forall j: nat :: j in p ==> j == k
    ensures p == [k]
  {
    assert |p| <= 1 || p[0] < p[1];
    forall i | 0 <= i < |p| ensures p[i] == k {
      assert p[i] in p;
    }
  }

  lemma {:induction false} TwoPositions(p: seq<nat>, j: nat, k: nat)
    requires j in p && k in p && j != k
    ensures |p| > 1
  {
  }

  lemma {:induction false} FirstPosition(p: seq<nat>)
    ensures p == [] || p[0] in p
  {
  }

  // ---- a message arrives ----

  /** No buffered notification agrees: the message is answered as pending, and waits unless
      its handle waits already; the oldest beyond 32 is forgotten. */
  lemma {:induction false} UnmatchedMessage(env: Env, s: Correlator, m: Message)
    requires forall k :: 0 <= k < |s.notifications| ==> !Agree(env, s.notifications[k], m)
    ensures var waits := exists k :: 0 <= k < |s.messages| && s.messages[k].handle == m.handle;
            Step(env, s, Map(m))
            == Outcome(s.(messages := if waits then s.messages else Last(s.messages + [m], 32)), Some(Pending))
  {
    NotificationHitsExact(env, s.notifications, m);
    FirstPosition(NotificationHits(env, s.notifications, m));
  }

  /** Exactly one agrees: the pair is on record, the notification leaves the buffer and its
      UID is completed; waiting messages stay as they are. */
  lemma {:induction false} MatchedMessage(env: Env, s: Correlator, m: Message, k: nat)
    requires k < |s.notifications| && Agree(env, s.notifications[k], m)
    requires forall j :: 0 <= j < |s.notifications| && j != k ==> !Agree(env, s.notifications[j], m)
    ensures var out, n := Step(env, s, Map(m)), s.notifications[k];
            && out.result.Some? && Records(env, out.result.value, n, m)
            && out.state == Correlator(s.notifications[..k] + s.notifications[k + 1..], s.messages,
                                       Last(s.completed + [n.uid], 64))
  {
    NotificationHitsExact(env, s.notifications, m);
    OnlyPosition(NotificationHits(env, s.notifications, m), |s.notifications|, k);
  }

  /** Several agree: the message is answered as ambiguous under its own handle and time,
      and nothing changes. */
  lemma {:induction false} AmbiguousMessage(env: Env, s: Correlator, m: Message, j: nat, k: nat)
    requires j < k < |s.notifications| && Agree(env, s.notifications[j], m) && Agree(env, s.notifications[k], m)
    ensures Step(env, s, Map(m)) == Outcome(s, Some(Ambiguous([m.handle], m.observed)))
  {
    NotificationHitsExact(env, s.notifications, m);
    TwoPositions(NotificationHits(env, s.notifications, m), j, k);
  }

  // ---- a notification arrives ----

  /** Its UID is completed: nothing happens. */
  lemma {:induction false} CompletedNotification(env: Env, s: Correlator, n: Notification)
    requires n.uid in s.completed
    ensures Step(env, s, Ancs(n)) == Outcome(s, None)
  {
  }

  /** Its UID is buffered: it takes the place of the one buffered. */
  lemma {:induction false} UpdatedNotification(env: Env, s: Correlator, n: Notification, k: nat)
    requires Consistent(s) && k < |s.notifications| && s.notifications[k].uid == n.uid
    ensures Step(env, s, Ancs(n)) == Outcome(s.(notifications := s.notifications[k := n]), None)
  {
    var at := IndexOfUid(s.notifications, n.uid);
    assert at <= k;
    assert at == k;
  }

  ghost predicate Fresh(s: Correlator, n: Notification) {
    n.uid !in s.completed && forall k :: 0 <= k < |s.notifications| ==> s.notifications[k].uid != n.uid
  }

  /** A new one with which no waiting message agrees is buffered and nothing is said; the
      oldest beyond 32 is forgotten. */
  lemma {:induction false} UnmatchedNotification(env: Env, s: Correlator, n: Notification)
    requires Fresh(s, n) && forall k :: 0 <= k < |s.messages| ==> !Agree(env, n, s.messages[k])
    ensures Step(env, s, Ancs(n)) == Outcome(s.(notifications := Last(s.notifications + [n], 32)), None)
  {
    MessageHitsExact(env, n, s.messages);
    FirstPosition(MessageHits(env, n, s.messages));
  }

  /** Exactly one agrees: the pair is on record, the message no longer waits and the UID is
      completed; the buffered notifications stay as they are. */
  lemma {:induction false} MatchedNotification(env: Env, s: Correlator, n: Notification, k: nat)
    requires Fresh(s, n) && k < |s.messages| && Agree(env, n, s.messages[k])
    requires forall j :: 0 <= j < |s.messages| && j != k ==> !Agree(env, n, s.messages[j])
    ensures var out := Step(env, s, Ancs(n));
            && out.result.Some? && Records(env, out.result.value, n, s.messages[k])
            && out.state == Correlator(s.notifications, s.messages[..k] + s.messages[k + 1..],
                                       Last(s.completed + [n.uid], 64))
  {
    MessageHitsExact(env, n, s.messages);
    OnlyPosition(MessageHits(env, n, s.messages), |s.messages|, k);
  }

  /** Several agree: it is buffered, and reported as ambiguous with the handles of exactly
      those messages, in the order in which they wait. */
  lemma {:induction false} AmbiguousNotification(env: Env, s: Correlator, n: Notification, j: nat, k: nat)
    requires Fresh(s, n) && j < k < |s.messages| && Agree(env, n, s.messages[j]) && Agree(env, n, s.messages[k])
    ensures var out := Step(env, s, Ancs(n));
            && out.state == s.(notifications := Last(s.notifications + [n], 32))
            && exists p :: MessagePositions(env, n, s.messages, p)
                           && out.result.Some? && out.result.value.Ambiguous?
                           && out.result.value.observed == n.observed
                           && HandlesAt(out.result.value.handles, s.messages, p)
  {
    var p := MessageHits(env, n, s.messages);
    MessageHitsExact(env, n, s.messages);
    HitHandlesAt(env, n, s.messages);
    TwoPositions(p, j, k);
  }
}

/** Competing evidence. When a buffered notification and a waiting message match, how
    the correlator has said so; and what a resolution can leave unsaid: it looks at one
    side only, so other waiting messages may match the same notification, and other
    buffered notifications the same message. */
module AncsEvidence {
  import opened Common
  import opened AncsGroups

  // ---- fail closed over whole runs ----

  /** Event `i` is the last observation of the UID of `n`, and it carried `n`. */
  ghost predicate LastObserved(events: seq<Event>, n: Notification, i: nat) {
    && i < |events| && events[i] == Ancs(n)
    && forall j :: i < j < |events| && events[j].Ancs? ==> events[j].n.uid != n.uid
  }

  /** Observing `n` overwrites a notification that is already buffered. */
  ghost predicate Replaces(s: Correlator, n: Notification) {
    exists k :: 0 <= k < |s.notifications| && s.notifications[k].uid == n.uid
  }

  /** Observing `n` returns an ambiguity that names `h`. */
  ghost predicate Flags(env: Env, s: Correlator, n: Notification, h: Handle) {
    var r := Observe(env, s, n).result;
    r.Some? && r.value.Ambiguous? && h in r.value.handles
  }

  ghost predicate UpdatedInPlace(env: Env, events: seq<Event>, i: nat)
    requires i < |events| && events[i].Ancs?
  {
    Replaces(Run(env, events[..i]), events[i].n)
  }

  ghost predicate FlaggedAt(env: Env, events: seq<Event>, i: nat, h: Handle)
    requires i < |events| && events[i].Ancs?
  {
    Flags(env, Run(env, events[..i]), events[i].n, h)
  }

  lemma {:induction false} UpdateIsSilent(env: Env, s: Correlator, n: Notification)
    requires Replaces(s, n)
    ensures Observe(env, s, n).result.None?
  {
    var k :| 0 <= k < |s.notifications| && s.notifications[k].uid == n.uid;
    assert IndexOfUid(s.notifications, n.uid) <= k;
  }

  /** A notification that enters the buffer while a message that matches it waits was
      reported with that message exactly if it did not overwrite another. */
  lemma {:induction false} FlaggedOnArrival(env: Env, s: Correlator, n: Notification, m: Message)
    requires Consistent(s) && Matches(env, n, m)
    requires n in Observe(env, s, n).state.notifications && m in s.messages
    requires m in Observe(env, s, n).state.messages
    ensures Flags(env, s, n, m.handle) <==> !Replaces(s, n)
  {
    if Replaces(s, n) {
      UpdateIsSilent(env, s, n);
    } else {
      var k :| 0 <= k < |s.messages| && s.messages[k] == m;
      MessageHitComplete(env, n, s.messages, k);
    }
  }

  /** A message that starts to wait has no buffered match. */
  lemma {:induction false} NotJustBuffered(env: Env, s: Correlator, e: Event, n: Notification, m: Message)
    requires n in s.notifications && Matches(env, n, m) && m in Step(env, s, e).state.messages
    ensures m in s.messages
  {
    StepMessage(env, s, e, m);
    var k :| 0 <= k < |s.notifications| && s.notifications[k] == n;
    NotificationHitComplete(env, s.notifications, m, k);
  }

  /** The last observation of `n` settled whether the pair was reported. */
  ghost predicate Settled(env: Env, events: seq<Event>, n: Notification, m: Message, i: nat) {
    LastObserved(events, n, i) && (FlaggedAt(env, events, i, m.handle) <==> !UpdatedInPlace(env, events, i))
  }

  lemma {:induction false} SettledOnArrival(env: Env, init: seq<Event>, s: Correlator, n: Notification, m: Message)
    requires Run(env, init) == s && (Flags(env, s, n, m.handle) <==> !Replaces(s, n))
    ensures Settled(env, init + [Ancs(n)], n, m, |init|)
  {
    var events := init + [Ancs(n)];
    assert events[..|init|] == init && events[|init|] == Ancs(n);
  }

  lemma {:induction false} StaysSettled(env: Env, init: seq<Event>, e: Event, n: Notification, m: Message, i: nat)
    requires Settled(env, init, n, m, i) && (e.Ancs? ==> e.n.uid != n.uid)
    ensures Settled(env, init + [e], n, m, i)
  {
    var events := init + [e];
    assert events[..i] == init[..i] && events[i] == init[i];
  }

  lemma {:induction false} FailClosedWitness(env: Env, events: seq<Event>, n: Notification, m: Message) returns (i: nat)
    requires n in Run(env, events).notifications && m in Run(env, events).messages && Matches(env, n, m)
    ensures Settled(env, events, n, m, i)
  {
    var last := |events| - 1;
    var init, e := events[..last], events[last];
    assert events == init + [e];
    var s := Run(env, init);
    RunConsistent(env, init);
    StepNotification(env, s, e, n);
    if e.Ancs? && e.n.uid == n.uid {
      StepMessage(env, s, e, m);
      FlaggedOnArrival(env, s, n, m);
      SettledOnArrival(env, init, s, n, m);
      i := last;
    } else {
      NotJustBuffered(env, s, e, n, m);
      i := FailClosedWitness(env, init, n, m);
      StaysSettled(env, init, e, n, m, i);
    }
  }

  /** Fail closed. In every run, if a buffered notification matches a waiting message,
      then the observation that brought its current content was reported as ambiguous
      with that message's handle, exactly unless it was an update in place. */
  lemma {:induction false} FailClosed(env: Env, events: seq<Event>, n: Notification, m: Message)
    requires n in Run(env, events).notifications && m in Run(env, events).messages && Matches(env, n, m)
    ensures exists i :: && LastObserved(events, n, i)
                        && (FlaggedAt(env, events, i, m.handle) <==> !UpdatedInPlace(env, events, i))
  {
    var i := FailClosedWitness(env, events, n, m);
  }

  ghost predicate UidsOnce(events: seq<Event>) {
    forall i, j :: 0 <= i < j < |events| && events[i].Ancs? && events[j].Ancs? ==>
      events[i].n.uid != events[j].n.uid
  }

  lemma {:induction false} NoUpdateWhenOnce(env: Env, events: seq<Event>, i: nat)
    requires i < |events| && events[i].Ancs? && UidsOnce(events)
    ensures !UpdatedInPlace(env, events, i)
  {
    var s := Run(env, events[..i]);
    forall k | 0 <= k < |s.notifications| ensures s.notifications[k].uid != events[i].n.uid {
      NotificationWasPresented(env, events[..i], s.notifications[k]);
      var j :| 0 <= j < i && events[..i][j] == Ancs(s.notifications[k]);
      assert events[j] == Ancs(s.notifications[k]);
    }
  }

  /** If no UID is observed twice, every buffered match has been reported. */
  lemma {:induction false} FailClosedWithoutUpdates(env: Env, events: seq<Event>, n: Notification, m: Message)
    requires n in Run(env, events).notifications && m in Run(env, events).messages
    requires Matches(env, n, m) && UidsOnce(events)
    ensures exists i :: 0 <= i < |events| && events[i] == Ancs(n) && FlaggedAt(env, events, i, m.handle)
  {
    var i := FailClosedWitness(env, events, n, m);
    NoUpdateWhenOnce(env, events, i);
  }

  /** The exception, in every run: an update that makes a buffered notification match a
      waiting message leaves both where they are and says nothing. */
  lemma {:induction false} UpdateInPlaceIsSilent(env: Env, s: Correlator, n: Notification, m: Message)
    requires Consistent(s) && Replaces(s, n) && m in s.messages
    ensures var out := Observe(env, s, n);
            out.result.None? && n in out.state.notifications && m in out.state.messages
  {
    UpdateIsSilent(env, s, n);
    var k :| 0 <= k < |s.notifications| && s.notifications[k].uid == n.uid;
    var at := IndexOfUid(s.notifications, n.uid);
    assert at <= k;
    assert n.uid !in s.completed;
    assert s.notifications[at := n][at] == n;
  }

  // ---- contested resolutions ----

  /** A waiting message matches `n`. */
  ghost predicate ContestedByMessage(env: Env, s: Correlator, n: Notification) {
    exists k :: 0 <= k < |s.messages| && Matches(env, n, s.messages[k])
  }

  /** A buffered notification matches `m`. */
  ghost predicate ContestedByNotification(env: Env, s: Correlator, m: Message) {
    exists k :: 0 <= k < |s.notifications| && Matches(env, s.notifications[k], m)
  }

  /** The pair that event `i` resolved: the arriving one, and the buffered one it took. */
  ghost predicate ResolvedAt(env: Env, events: seq<Event>, i: nat, n: Notification, m: Message)
    requires i < |events|
  {
    var s, e := Run(env, events[..i]), events[i];
    && Step(env, s, e).result == Some(CorrelatePair(env, n, m))
    && (if e.Ancs? then e.n == n && m in s.messages else e.m == m && n in s.notifications)
  }

  /** How the last observation of `n` settled the pair is on record. */
  ghost predicate OnRecord(env: Env, events: seq<Event>, n: Notification, m: Message) {
    exists i: nat :: Settled(env, events, n, m, i)
  }

  /** Whatever the run: each message that competes with a resolved one for its
      notification, and each notification that competes with a resolved one for its
      message, was reported as ambiguous with that rival exactly unless it was updated in
      place. */
  lemma {:induction false} CompetitorsWereReported(env: Env, events: seq<Event>, i: nat)
    requires i < |events|
    ensures forall n, m, x :: events[i].Map? && ResolvedAt(env, events, i, n, m)
              && x in Run(env, events[..i]).messages && Matches(env, n, x)
              ==> OnRecord(env, events[..i], n, x)
    ensures forall n, m, x :: events[i].Ancs? && ResolvedAt(env, events, i, n, m)
              && x in Run(env, events[..i]).notifications && Matches(env, x, m)
              ==> OnRecord(env, events[..i], x, m)
  {
    forall n, x | n in Run(env, events[..i]).notifications && x in Run(env, events[..i]).messages && Matches(env, n, x)
      ensures OnRecord(env, events[..i], n, x)
    {
      var j := FailClosedWitness(env, events[..i], n, x);
    }
  }

  /** A handle always stands for the same message. Presenting that message again is
      allowed. */
  ghost predicate OneMessagePerHandle(events: seq<Event>) {
    forall i, j :: 0 <= i < |events| && 0 <= j < |events| && events[i].Map? && events[j].Map? ==>
      (events[i].m.handle == events[j].m.handle ==> events[i].m == events[j].m)
  }

  lemma {:induction false} HandlesOnceMeansOneMessage(events: seq<Event>)
    requires HandlesOnce(events)
    ensures OneMessagePerHandle(events)
  {
  }

  lemma {:induction false} HitHandleMatches(env: Env, n: Notification, messages: seq<Message>, h: Handle)
    requires h in HitHandles(env, n, messages)
    ensures exists k :: 0 <= k < |messages| && messages[k].handle == h && Matches(env, n, messages[k])
  {
    var at := |messages| - 1;
    if h in HitHandles(env, n, messages[..at]) {
      HitHandleMatches(env, n, messages[..at], h);
      var k :| 0 <= k < at && messages[..at][k].handle == h && Matches(env, n, messages[..at][k]);
      assert messages[k] == messages[..at][k];
    } else {
      assert messages[at].handle == h && Matches(env, n, messages[at]);
    }
  }

  lemma {:induction false} PresentedIn(env: Env, events: seq<Event>, j: nat, m: Message) returns (i: nat)
    requires j <= |events| && m in Run(env, events[..j]).messages
    ensures i < |events| && events[i] == Map(m)
  {
    MessageWasPresented(env, events[..j], m);
    i :| 0 <= i < j && events[..j][i] == Map(m);
  }

  /** A handle named at event `j` that waits in the end still stands for a match. */
  lemma {:induction false} NamedStillMatches(env: Env, events: seq<Event>, j: nat, n: Notification, m: Message)
    requires OneMessagePerHandle(events) && m in Run(env, events).messages
    requires j < |events| && events[j] == Ancs(n) && FlaggedAt(env, events, j, m.handle)
    ensures Matches(env, n, m)
  {
    var before := Run(env, events[..j]).messages;
    HitHandleMatches(env, n, before, m.handle);
    var k :| 0 <= k < |before| && before[k].handle == m.handle && Matches(env, n, before[k]);
    var a := PresentedIn(env, events, j, before[k]);
    assert events[..|events|] == events;
    var b := PresentedIn(env, events, |events|, m);
  }

  lemma {:induction false} OneLastObservation(events: seq<Event>, n: Notification, i: nat, j: nat)
    requires LastObserved(events, n, i) && LastObserved(events, n, j)
    ensures i == j
  {
  }

  /** Event `j` observed `n` and was reported with `h`, which still waits. */
  ghost predicate NamedAndWaiting(env: Env, events: seq<Event>, n: Notification, j: nat, h: Handle) {
    && j < |events| && events[j] == Ancs(n) && FlaggedAt(env, events, j, h)
    && HandleKnown(Run(env, events).messages, h)
  }

  lemma {:induction false} ContestWasNamed(env: Env, events: seq<Event>, n: Notification, j: nat, m: Message)
    requires LastObserved(events, n, j) && !UpdatedInPlace(env, events, j)
    requires n in Run(env, events).notifications && m in Run(env, events).messages && Matches(env, n, m)
    ensures NamedAndWaiting(env, events, n, j, m.handle)
  {
    var i := FailClosedWitness(env, events, n, m);
    OneLastObservation(events, n, i, j);
  }

  lemma {:induction false} NamedIsContest(env: Env, events: seq<Event>, n: Notification, j: nat, h: Handle)
    requires OneMessagePerHandle(events) && NamedAndWaiting(env, events, n, j, h)
    ensures ContestedByMessage(env, Run(env, events), n)
  {
    var messages := Run(env, events).messages;
    var k :| 0 <= k < |messages| && messages[k].handle == h;
    NamedStillMatches(env, events, j, n, messages[k]);
  }

  /** In every run whose handles each stand for one message: a buffered notification that
      was not updated in place is contested by a waiting message exactly when the result
      of its arrival named a handle that still waits. */
  lemma {:induction false} ContestExactly(env: Env, events: seq<Event>, n: Notification, j: nat)
    requires OneMessagePerHandle(events) && n in Run(env, events).notifications
    requires LastObserved(events, n, j) && !UpdatedInPlace(env, events, j)
    ensures ContestedByMessage(env, Run(env, events), n) <==> exists h :: NamedAndWaiting(env, events, n, j, h)
  {
    var messages := Run(env, events).messages;
    if k :| 0 <= k < |messages| && Matches(env, n, messages[k]) {
      ContestWasNamed(env, events, n, j, messages[k]);
    }
    if h :| NamedAndWaiting(env, events, n, j, h) {
      NamedIsContest(env, events, n, j, h);
    }
  }

  lemma {:induction false} ObservedOnce(env: Env, events: seq<Event>, n: Notification) returns (j: nat)
    requires UidsOnce(events) && n in Run(env, events).notifications
    ensures LastObserved(events, n, j) && !UpdatedInPlace(env, events, j)
  {
    NotificationWasPresented(env, events, n);
    j :| 0 <= j < |events| && events[j] == Ancs(n);
    NoUpdateWhenOnce(env, events, j);
  }

  /** The same when no UID comes twice, whichever event brought `n`. */
  lemma {:induction false} NotificationContestExactly(env: Env, events: seq<Event>, n: Notification)
    requires OneMessagePerHandle(events) && UidsOnce(events) && n in Run(env, events).notifications
    ensures ContestedByMessage(env, Run(env, events), n)
       <==> exists j: nat, h :: NamedAndWaiting(env, events, n, j, h)
  {
    var j := ObservedOnce(env, events, n);
    ContestExactly(env, events, n, j);
    if k: nat, h :| NamedAndWaiting(env, events, n, k, h) {
      NamedIsContest(env, events, n, k, h);
    }
  }

  lemma {:induction false} PrefixOnce(events: seq<Event>, i: nat)
    requires i <= |events|
    ensures HandlesOnce(events) ==> HandlesOnce(events[..i])
    ensures UidsOnce(events) ==> UidsOnce(events[..i])
  {
    var part := events[..i];
    assert forall k :: 0 <= k < i ==> part[k] == events[k];
  }

  /** When no handle and no UID comes twice: a notification resolved by an arriving message
      was contested by another waiting message exactly when its arrival had been reported
      with a handle that still waits. */
  lemma {:induction false} MessageResolutionContested(env: Env, events: seq<Event>, i: nat, n: Notification, m: Message)
    requires HandlesOnce(events) && UidsOnce(events)
    requires i < |events| && events[i].Map? && ResolvedAt(env, events, i, n, m)
    ensures ContestedByMessage(env, Run(env, events[..i]), n)
       <==> exists j: nat, h :: NamedAndWaiting(env, events[..i], n, j, h)
  {
    PrefixOnce(events, i);
    HandlesOnceMeansOneMessage(events[..i]);
    NotificationContestExactly(env, events[..i], n);
  }

  /** Event `j` observed a notification that is still buffered and was reported with `h`. */
  ghost predicate ReportedAndBuffered(env: Env, events: seq<Event>, j: nat, h: Handle) {
    && j < |events| && events[j].Ancs? && events[j].n in Run(env, events).notifications
    && FlaggedAt(env, events, j, h)
  }

  lemma {:induction false} ReportedIsContest(env: Env, events: seq<Event>, j: nat, m: Message)
    requires OneMessagePerHandle(events) && m in Run(env, events).messages
    requires ReportedAndBuffered(env, events, j, m.handle)
    ensures ContestedByNotification(env, Run(env, events), m)
  {
    var buffered, n := Run(env, events).notifications, events[j].n;
    NamedStillMatches(env, events, j, n, m);
    var k :| 0 <= k < |buffered| && buffered[k] == n;
  }

  /** When no UID comes twice: a waiting message is contested by a buffered
      notification exactly when that one's arrival was reported with its handle. */
  lemma {:induction false} MessageContestExactly(env: Env, events: seq<Event>, m: Message)
    requires OneMessagePerHandle(events) && UidsOnce(events) && m in Run(env, events).messages
    ensures ContestedByNotification(env, Run(env, events), m)
       <==> exists j: nat :: ReportedAndBuffered(env, events, j, m.handle)
  {
    var buffered := Run(env, events).notifications;
    if k :| 0 <= k < |buffered| && Matches(env, buffered[k], m) {
      FailClosedWithoutUpdates(env, events, buffered[k], m);
      var j :| 0 <= j < |events| && events[j] == Ancs(buffered[k]) && FlaggedAt(env, events, j, m.handle);
      assert ReportedAndBuffered(env, events, j, m.handle);
    }
    if j: nat :| ReportedAndBuffered(env, events, j, m.handle) {
      ReportedIsContest(env, events, j, m);
    }
  }

  /** And a message resolved by an arriving notification was contested by another buffered
      notification exactly when that one's arrival had been reported with its handle. */
  lemma {:induction false} NotificationResolutionContested(
      env: Env, events: seq<Event>, i: nat, n: Notification, m: Message)
    requires HandlesOnce(events) && UidsOnce(events)
    requires i < |events| && events[i].Ancs? && ResolvedAt(env, events, i, n, m)
    ensures ContestedByNotification(env, Run(env, events[..i]), m)
       <==> exists j: nat :: ReportedAndBuffered(env, events[..i], j, m.handle)
  {
    PrefixOnce(events, i);
    HandlesOnceMeansOneMessage(events[..i]);
    MessageContestExactly(env, events[..i], m);
  }

  // ---- the cases occur ----

  /** A contested resolution by a message: three messages match one notification; the
      first two are reported as ambiguous with it, and the third takes it from them. */
  lemma {:induction false} ThirdMessageTakes(env: Env, n: Notification, a: Message, b: Message, c: Message)
    requires Matches(env, n, a) && Matches(env, n, b) && Matches(env, n, c)
    requires a.handle != b.handle && a.handle != c.handle && b.handle != c.handle
    ensures var events := [] + [Map(a)] + [Map(b)] + [Ancs(n)];
            && Reaches(env, events, Correlator([n], [a, b], []), [])
            && Reaches(env, events + [Map(c)], Correlator([], [a, b], [n.uid]), [Pair(c.handle, n.uid)])
            && ContestedByMessage(env, Run(env, events), n)
  {
    AmbiguousStart(env, n, a, b);
    MessageTakes(env, n, [a, b], c);
    var waiting := Correlator([n], [a, b], []);
    ReachesNext(env, [] + [Map(a)] + [Map(b)] + [Ancs(n)], waiting, [], Map(c),
                Outcome(Correlator([], [a, b], [n.uid]), Some(CorrelatePair(env, n, c))));
    assert Matches(env, n, waiting.messages[0]);
  }

  /** A contested resolution by a notification: it takes a message that an earlier one,
      reported as ambiguous with it, still matches. */
  lemma {:induction false} SecondNotificationTakes(env: Env, n: Notification, k: Notification, a: Message, b: Message)
    requires Matches(env, n, a) && Matches(env, n, b) && a.handle != b.handle
    requires Matches(env, k, a) && !Matches(env, k, b) && k.uid != n.uid
    ensures var events := [] + [Map(a)] + [Map(b)] + [Ancs(n)];
            && Reaches(env, events, Correlator([n], [a, b], []), [])
            && Reaches(env, events + [Ancs(k)], Correlator([n], [b], [k.uid]), [Pair(a.handle, k.uid)])
            && ContestedByNotification(env, Run(env, events), a)
  {
    AmbiguousStart(env, n, a, b);
    NotificationTakes(env, [n], a, b, [], k);
    var waiting := Correlator([n], [a, b], []);
    assert Remember([], k.uid) == [k.uid];
    ReachesNext(env, [] + [Map(a)] + [Map(b)] + [Ancs(n)], waiting, [], Ancs(k),
                Outcome(Correlator([n], [b], [k.uid]), Some(CorrelatePair(env, k, a))));
    assert Matches(env, waiting.notifications[0], a);
  }

  lemma {:induction false} LoneNotificationWaits(env: Env, n: Notification)
    ensures Observe(env, INITIAL, n) == Outcome(Correlator([n], [], []), None)
  {
    assert [] + [n] == [n];
  }

  lemma {:induction false} UnmatchedMessageWaits(env: Env, n: Notification, m: Message)
    requires !Matches(env, n, m)
    ensures Correlate(env, Correlator([n], [], []), m) == Outcome(Correlator([n], [m], []), Some(Pending))
  {
    assert [n][..0] == [];
    assert NotificationHits(env, [n], m) == [];
    assert [] + [m] == [m];
  }

  lemma {:induction false} LoneNotificationUpdated(env: Env, n: Notification, updated: Notification, m: Message)
    requires updated.uid == n.uid
    ensures Observe(env, Correlator([n], [m], []), updated) == Outcome(Correlator([updated], [m], []), None)
  {
    assert IndexOfUid([n], updated.uid) == 0;
    assert [n][0 := updated] == [updated];
  }

  /** A silent match: an update in place makes a buffered pair match, and no result of the
      run says so. */
  lemma {:induction false} SilentMatch(env: Env, n: Notification, updated: Notification, m: Message)
    requires updated.uid == n.uid && !Matches(env, n, m) && Matches(env, updated, m)
    ensures Observe(env, INITIAL, n).result.None?
    ensures Correlate(env, Correlator([n], [], []), m).result == Some(Pending)
    ensures Observe(env, Correlator([n], [m], []), updated).result.None?
    ensures Reaches(env, [] + [Ancs(n)] + [Map(m)] + [Ancs(updated)], Correlator([updated], [m], []), [])
  {
    var one, two := Correlator([n], [], []), Correlator([n], [m], []);
    LoneNotificationWaits(env, n);
    ReachesNext(env, [], INITIAL, [], Ancs(n), Outcome(one, None));
    UnmatchedMessageWaits(env, n, m);
    ReachesNext(env, [] + [Ancs(n)], one, [], Map(m), Outcome(two, Some(Pending)));
    LoneNotificationUpdated(env, n, updated, m);
    ReachesNext(env, [] + [Ancs(n)] + [Map(m)], two, [], Ancs(updated), Outcome(Correlator([updated], [m], []), None));
  }
}

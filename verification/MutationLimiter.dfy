/** The mutation rate limiter: it counts per fixed window, and what it promises about
    every sliding interval of the same length. Instants are nanoseconds. */
module MutationLimiting {
  import opened Common

  datatype Limits = Limits(maximum: nat, window: nat)

  datatype MutationWindow = MutationWindow(startedAt: int, accepted: nat)

  const U32_MAX: nat := 0xFFFF_FFFF

  // ---- the limiter as a state machine ----

  /** The window that a request at `now` falls in; a clock behind the window's start
      counts as no time elapsed. */
  function Current(s: MutationWindow, now: int, limits: Limits): MutationWindow {
    if Max(0, now - s.startedAt) >= limits.window then MutationWindow(now, 0) else s
  }

  predicate Allowed(s: MutationWindow, now: int, limits: Limits) {
    Current(s, now, limits).accepted < limits.maximum
  }

  function Allow(s: MutationWindow, now: int, limits: Limits): MutationWindow {
    var w := Current(s, now, limits);
    if Allowed(s, now, limits) then w.(accepted := w.accepted + 1) else w
  }

  class MutationLimiter {
    const limits: Limits
    var startedAt: int
    var accepted: nat

    function View(): MutationWindow
      reads this
    {
      MutationWindow(startedAt, accepted)
    }

    /** The counter never reaches the point where the 32-bit addition would saturate. */
    ghost predicate Valid()
      reads this
    {
      accepted <= limits.maximum <= U32_MAX
    }

    constructor (maximum: nat, window: nat, now: int)
      requires maximum <= U32_MAX
      ensures Valid() && limits == Limits(maximum, window) && View() == MutationWindow(now, 0)
    {
      limits := Limits(maximum, window);
      startedAt, accepted := now, 0;
    }

    method AllowAt(now: int) returns (allowed: bool)
      requires Valid()
      modifies this
      ensures Valid() && allowed == Allowed(old(View()), now, limits)
      ensures View() == Allow(old(View()), now, limits)
    {
      if Max(0, now - startedAt) >= limits.window {
        startedAt := now;
        accepted := 0;
      }
      if accepted >= limits.maximum {
        return false;
      }
      accepted := Min(accepted + 1, U32_MAX);
      return true;
    }
  }

  // ---- whole runs ----

  /** The limiter created at `start`, after requests at `times`. */
  ghost function Run(start: int, times: seq<int>, limits: Limits): MutationWindow {
    if times == [] then MutationWindow(start, 0)
    else Allow(Run(start, times[..|times| - 1], limits), times[|times| - 1], limits)
  }

  /** One if a request at `now` is accepted and its instant is in [from, until). */
  function Counted(s: MutationWindow, now: int, limits: Limits, from: int, until: int): nat {
    if from <= now < until && Allowed(s, now, limits) then 1 else 0
  }

  /** How many requests with an instant in [from, until) the run accepted. */
  ghost function Accepted(start: int, times: seq<int>, limits: Limits, from: int, until: int): nat {
    if times == [] then 0
    else
      var init, now := times[..|times| - 1], times[|times| - 1];
      Accepted(start, init, limits, from, until) + Counted(Run(start, init, limits), now, limits, from, until)
  }

  lemma {:induction false} RunSnoc(start: int, times: seq<int>, limits: Limits, now: int, from: int, until: int)
    ensures var s := Run(start, times, limits);
            && Run(start, times + [now], limits) == Allow(s, now, limits)
            && Accepted(start, times + [now], limits, from, until)
               == Accepted(start, times, limits, from, until) + Counted(s, now, limits, from, until)
  {
    assert (times + [now])[..|times|] == times;
  }

  /** No request is stamped more than `late` before the start of the window it meets. */
  ghost predicate AtMostLate(start: int, times: seq<int>, limits: Limits, late: nat) {
    times == [] ||
    var init, now := times[..|times| - 1], times[|times| - 1];
    AtMostLate(start, init, limits, late) && now >= Run(start, init, limits).startedAt - late
  }

  /** How many requests of the window-long interval from `t` the run accepted. */
  ghost function InInterval(start: int, times: seq<int>, limits: Limits, t: int): nat {
    Accepted(start, times, limits, t, t + limits.window)
  }

  // ---- the bound ----

  /** What the limiter knows of the interval [t, t + window), of which `count` requests
      have been accepted: none while the current window ends before it, at most the
      window's own count while that began no later, and a full window more after that. */
  ghost predicate Covers(s: MutationWindow, count: nat, t: int, limits: Limits) {
    && s.accepted <= limits.maximum && (limits.window == 0 ==> count == 0)
    && (s.startedAt + limits.window <= t ==> count == 0)
    && (s.startedAt <= t ==> count <= s.accepted)
    && (s.startedAt <= t + limits.window ==> count <= limits.maximum + s.accepted)
    && count <= 2 * limits.maximum
  }

  lemma {:induction false} CoversStep(s: MutationWindow, count: nat, t: int, limits: Limits, now: int)
    requires Covers(s, count, t, limits) && now >= s.startedAt - 1
    ensures Covers(Allow(s, now, limits), count + Counted(s, now, limits, t, t + limits.window), t, limits)
  {
  }

  lemma {:induction false} RunCovers(start: int, times: seq<int>, limits: Limits, late: nat, t: int)
    requires AtMostLate(start, times, limits, late) && late <= 1
    ensures Covers(Run(start, times, limits), InInterval(start, times, limits, t), t, limits)
  {
    if times != [] {
      var init := times[..|times| - 1];
      RunCovers(start, init, limits, late, t);
      CoversStep(Run(start, init, limits), InInterval(start, init, limits, t), t, limits, times[|times| - 1]);
    }
  }

  /** Sliding-window bound. However the requests fall and in whatever order, as long as
      none is stamped before the window it meets (or by one instant at most), no half-open
      interval as long as the window holds more than twice the maximum of accepted ones. */
  lemma {:induction false} SlidingWindowBound(start: int, times: seq<int>, limits: Limits, late: nat, t: int)
    requires AtMostLate(start, times, limits, late) && late <= 1
    ensures InInterval(start, times, limits, t) <= 2 * limits.maximum
  {
    RunCovers(start, times, limits, late, t);
  }

  // ---- a clock in order ----

  function LastTime(start: int, times: seq<int>): int {
    if times == [] then start else times[|times| - 1]
  }

  ghost predicate Nondecreasing(start: int, times: seq<int>) {
    times != [] ==>
      && LastTime(start, times[..|times| - 1]) <= times[|times| - 1]
      && Nondecreasing(start, times[..|times| - 1])
  }

  lemma {:induction false} WindowHasBegun(start: int, times: seq<int>, limits: Limits)
    requires Nondecreasing(start, times)
    ensures Run(start, times, limits).startedAt <= LastTime(start, times)
  {
    if times != [] {
      WindowHasBegun(start, times[..|times| - 1], limits);
    }
  }

  /** Requests in the order of their instants are never late. */
  lemma {:induction false} InOrderIsPunctual(start: int, times: seq<int>, limits: Limits)
    requires Nondecreasing(start, times)
    ensures AtMostLate(start, times, limits, 0)
  {
    if times != [] {
      InOrderIsPunctual(start, times[..|times| - 1], limits);
      WindowHasBegun(start, times[..|times| - 1], limits);
    }
  }

  /** In particular the bound holds for every clock in order. */
  lemma {:induction false} SlidingWindowBoundInOrder(start: int, times: seq<int>, limits: Limits, t: int)
    requires Nondecreasing(start, times)
    ensures InInterval(start, times, limits, t) <= 2 * limits.maximum
  {
    InOrderIsPunctual(start, times, limits);
    SlidingWindowBound(start, times, limits, 0, t);
  }

  lemma {:induction false} AcceptedWider(start: int, times: seq<int>, limits: Limits, from: int, wider: int, until: int)
    requires wider <= from
    ensures Accepted(start, times, limits, from, until) <= Accepted(start, times, limits, wider, until)
  {
    if times != [] {
      AcceptedWider(start, times[..|times| - 1], limits, from, wider, until);
    }
  }

  /** The counter counts real acceptances of the current window. */
  lemma {:induction false} CounterIsEarned(start: int, times: seq<int>, limits: Limits, until: int)
    requires Nondecreasing(start, times) && LastTime(start, times) < until
    ensures var s := Run(start, times, limits);
            s.accepted <= Accepted(start, times, limits, s.startedAt, until)
  {
    if times != [] {
      var init := times[..|times| - 1];
      CounterIsEarned(start, init, limits, until);
      WindowHasBegun(start, init, limits);
    }
  }

  /** A refused request had `maximum` accepted ones in the window-long interval that
      ends with it: the limiter never refuses below its rate. */
  lemma {:induction false} RefusalIsEarned(start: int, times: seq<int>, limits: Limits, now: int)
    requires Nondecreasing(start, times) && LastTime(start, times) <= now
    requires !Allowed(Run(start, times, limits), now, limits)
    ensures Accepted(start, times, limits, now + 1 - limits.window, now + 1) >= limits.maximum
  {
    CounterIsEarned(start, times, limits, now + 1);
    WindowHasBegun(start, times, limits);
    var s := Run(start, times, limits);
    if limits.maximum > 0 {
      AcceptedWider(start, times, limits, s.startedAt, now + 1 - limits.window, now + 1);
    }
  }

  // ---- how late is too late ----

  /** Where a run from 0 has got to: how late its requests were, the state, and how many
      requests of [from, until) it accepted. */
  ghost predicate Reached(times: seq<int>, limits: Limits, late: nat, from: int, until: int, s: MutationWindow, count: nat) {
    && AtMostLate(0, times, limits, late)
    && Run(0, times, limits) == s && Accepted(0, times, limits, from, until) == count
  }

  lemma {:induction false} ReachedSnoc(
      times: seq<int>, limits: Limits, late: nat, from: int, until: int, s: MutationWindow, count: nat, now: int)
    requires Reached(times, limits, late, from, until, s, count) && now >= s.startedAt - late
    ensures Reached(times + [now], limits, late, from, until, Allow(s, now, limits),
                    count + Counted(s, now, limits, from, until))
  {
    RunSnoc(0, times, limits, now, from, until);
    assert (times + [now])[..|times|] == times;
  }

  /** `n` requests at one instant, after `times`. */
  function Burst(times: seq<int>, now: int, n: nat): seq<int> {
    if n == 0 then times else Burst(times, now, n - 1) + [now]
  }

  /** A request that falls in the current window, which has room for it. */
  lemma {:induction false} AllowWithin(s: MutationWindow, now: int, limits: Limits)
    requires now < s.startedAt + limits.window && limits.window > 0 && s.accepted < limits.maximum
    ensures Allow(s, now, limits) == s.(accepted := s.accepted + 1) && Allowed(s, now, limits)
  {
  }

  /** A request past the current window opens a new one. */
  lemma {:induction false} AllowOpens(s: MutationWindow, now: int, limits: Limits)
    requires now >= s.startedAt + limits.window && limits.maximum > 0
    ensures Allow(s, now, limits) == MutationWindow(now, 1) && Allowed(s, now, limits)
  {
  }

  /** A burst within the current window is accepted whole if there is room for it. */
  lemma {:induction false} BurstFits(
      times: seq<int>, limits: Limits, late: nat, from: int, until: int, s: MutationWindow, count: nat, now: int, n: nat)
    requires Reached(times, limits, late, from, until, s, count) && from <= now < until
    requires s.startedAt - late <= now < s.startedAt + limits.window && limits.window > 0
    requires s.accepted + n <= limits.maximum
    ensures Reached(Burst(times, now, n), limits, late, from, until, s.(accepted := s.accepted + n), count + n)
  {
    if n > 0 {
      var before := s.(accepted := s.accepted + (n - 1));
      BurstFits(times, limits, late, from, until, s, count, now, n - 1);
      AllowWithin(before, now, limits);
      ReachedSnoc(Burst(times, now, n - 1), limits, late, from, until, before, count + (n - 1), now);
    }
  }

  /** A burst that opens a window is accepted whole up to the maximum. */
  lemma {:induction false} BurstOpens(
      times: seq<int>, limits: Limits, late: nat, from: int, until: int, s: MutationWindow, count: nat, now: int, n: nat)
    requires Reached(times, limits, late, from, until, s, count) && from <= now < until
    requires now >= s.startedAt + limits.window && limits.window > 0 && n < limits.maximum
    ensures Reached(Burst(times + [now], now, n), limits, late, from, until, MutationWindow(now, n + 1), count + 1 + n)
  {
    AllowOpens(s, now, limits);
    ReachedSnoc(times, limits, late, from, until, s, count, now);
    BurstFits(times + [now], limits, late, from, until, MutationWindow(now, 1), count + 1, now, n);
  }

  /** One full burst at the end of the first window. */
  function FirstBurst(limits: Limits): seq<int> {
    Burst([], limits.window - 1, limits.maximum)
  }

  /** And one at the start of the next. */
  function TwoBursts(limits: Limits): seq<int>
    requires limits.maximum > 0
  {
    Burst(FirstBurst(limits) + [limits.window], limits.window, limits.maximum - 1)
  }

  lemma {:induction false} TwoBurstsReach(limits: Limits, late: nat)
    requires limits.window >= 2 && limits.maximum > 0
    ensures Reached(TwoBursts(limits), limits, late, limits.window - 1, 2 * limits.window - 1,
                    MutationWindow(limits.window, limits.maximum), 2 * limits.maximum)
  {
    var w, m := limits.window, limits.maximum;
    var from, until := w - 1, 2 * w - 1;
    assert Reached([], limits, late, from, until, MutationWindow(0, 0), 0);
    BurstFits([], limits, late, from, until, MutationWindow(0, 0), 0, w - 1, m);
    BurstOpens(FirstBurst(limits), limits, late, from, until, MutationWindow(0, m), m, w, m - 1);
  }

  /** The bound is reached, whatever the maximum and for any window of two instants or
      more, by requests that are all on time. */
  lemma {:induction false} BoundIsReached(limits: Limits)
    requires limits.window >= 2 && limits.maximum > 0
    ensures AtMostLate(0, TwoBursts(limits), limits, 0)
    ensures InInterval(0, TwoBursts(limits), limits, limits.window - 1) == 2 * limits.maximum
  {
    TwoBurstsReach(limits, 0);
  }

  /** After the two bursts, a request that opens the third window, and as many as still
      fit stamped two instants before it. */
  function LateBurst(limits: Limits): seq<int>
    requires limits.maximum > 0
  {
    Burst(TwoBursts(limits) + [2 * limits.window], 2 * limits.window - 2, limits.maximum - 1)
  }

  lemma {:induction false} LateBurstReaches(limits: Limits, late: nat)
    requires limits.window >= 2 && limits.maximum > 0 && late >= 2
    ensures Reached(LateBurst(limits), limits, late, limits.window - 1, 2 * limits.window - 1,
                    MutationWindow(2 * limits.window, limits.maximum), 3 * limits.maximum - 1)
  {
    var w, m := limits.window, limits.maximum;
    var from, until := w - 1, 2 * w - 1;
    TwoBurstsReach(limits, late);
    AllowOpens(MutationWindow(w, m), 2 * w, limits);
    ReachedSnoc(TwoBursts(limits), limits, late, from, until, MutationWindow(w, m), 2 * m, 2 * w);
    BurstFits(TwoBursts(limits) + [2 * w], limits, late, from, until, MutationWindow(2 * w, 1), 2 * m, 2 * w - 2, m - 1);
  }

  /** Whatever requests at most `late` late a run from 0 gets, the bound holds. */
  ghost predicate AlwaysBounded(limits: Limits, late: nat) {
    forall times, t :: AtMostLate(0, times, limits, late) ==>
      InInterval(0, times, limits, t) <= 2 * limits.maximum
  }

  /** With a maximum of one, whoever opens a window fills it, so only the window the
      limiter was created with can take a late request. */
  ghost predicate CoversSingle(s: MutationWindow, count: nat, t: int, limits: Limits) {
    && s.accepted <= limits.maximum && count <= 2 * limits.maximum
    && (limits.window == 0 || s.accepted == 0 ==> count == 0)
    && (s.startedAt < t ==> count <= 1)
  }

  lemma {:induction false} CoversSingleStep(s: MutationWindow, count: nat, t: int, limits: Limits, now: int)
    requires CoversSingle(s, count, t, limits) && (limits.maximum <= 1 || limits.window == 0)
    ensures CoversSingle(Allow(s, now, limits), count + Counted(s, now, limits, t, t + limits.window), t, limits)
  {
  }

  lemma {:induction false} RunCoversSingle(start: int, times: seq<int>, limits: Limits, t: int)
    requires limits.maximum <= 1 || limits.window == 0
    ensures CoversSingle(Run(start, times, limits), InInterval(start, times, limits, t), t, limits)
  {
    if times != [] {
      var init := times[..|times| - 1];
      RunCoversSingle(start, init, limits, t);
      CoversSingleStep(Run(start, init, limits), InInterval(start, init, limits, t), t, limits, times[|times| - 1]);
    }
  }

  /** How late is too late, exactly. For every window but that of a single instant, the
      bound holds for all requests at most `late` late if and only if `late` is at most
      one, or the maximum is, or the window is empty. */
  lemma {:induction false} ToleranceExactly(limits: Limits, late: nat)
    requires limits.window != 1
    ensures AlwaysBounded(limits, late) <==> late <= 1 || limits.maximum <= 1 || limits.window == 0
  {
    if late <= 1 {
      forall times, t | AtMostLate(0, times, limits, late) ensures InInterval(0, times, limits, t) <= 2 * limits.maximum {
        SlidingWindowBound(0, times, limits, late, t);
      }
    } else if limits.maximum <= 1 || limits.window == 0 {
      forall times, t ensures InInterval(0, times, limits, t) <= 2 * limits.maximum {
        RunCoversSingle(0, times, limits, t);
      }
    } else {
      LateBurstReaches(limits, late);
      assert InInterval(0, LateBurst(limits), limits, limits.window - 1) > 2 * limits.maximum;
    }
  }

  function WindowStart(limits: Limits, n: nat): nat {
    if n == 0 then 0 else WindowStart(limits, n - 1) + limits.window
  }

  /** Every window is opened by a punctual request and then used by one stamped 0. */
  function StaleRequests(limits: Limits, n: nat): seq<int> {
    if n == 0 then [] else StaleRequests(limits, n - 1) + [WindowStart(limits, n)] + [0]
  }

  /** Where a run from 0 has got to, and how many requests stamped 0 it accepted. */
  ghost predicate StaleReached(times: seq<int>, limits: Limits, s: MutationWindow, count: nat) {
    Run(0, times, limits) == s && Accepted(0, times, limits, 0, 1) == count
  }

  lemma {:induction false} StalePair(times: seq<int>, limits: Limits, at: nat, accepted: nat, count: nat)
    requires limits.maximum >= 2 && limits.window > 0
    requires StaleReached(times, limits, MutationWindow(at, accepted), count)
    ensures var next := at + limits.window;
            StaleReached(times + [next] + [0], limits, MutationWindow(next, 2), count + 1)
  {
    var next := at + limits.window;
    AllowOpens(MutationWindow(at, accepted), next, limits);
    RunSnoc(0, times, limits, next, 0, 1);
    AllowWithin(MutationWindow(next, 1), 0, limits);
    RunSnoc(0, times + [next], limits, 0, 0, 1);
  }

  /** The instant is read before the lock is taken, so nothing in the code limits how late
      a request is. Without a limit nothing bounds an interval: any number of requests can
      be accepted at the single instant 0. */
  lemma {:induction false} LateIsUnbounded(limits: Limits, n: nat)
    requires limits.maximum >= 2 && limits.window > 0
    ensures StaleReached(StaleRequests(limits, n), limits, MutationWindow(WindowStart(limits, n), if n == 0 then 0 else 2), n)
  {
    if n > 0 {
      var before, at := StaleRequests(limits, n - 1), WindowStart(limits, n - 1);
      LateIsUnbounded(limits, n - 1);
      StalePair(before, limits, at, if n == 1 then 0 else 2, n - 1);
      assert StaleRequests(limits, n) == before + [at + limits.window] + [0];
    }
  }
}

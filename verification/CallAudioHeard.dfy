/** What the call-audio pump makes heard: when playout begins, which packets are played,
    what every written frame sounds like after those before it, and how fast they follow
    each other. */
module CallAudioHeard {
  import opened Common
  import opened JitterLog
  import opened Concealment
  import opened CallAudioPump
  import C = AudioCodec
  import J = JavaJitter

  // ---- when playout begins ----

  /** Event `i` is an interval that finds four packets buffered. */
  ghost predicate FourAt(format: int, events: seq<Event>, i: nat)
    requires C.KnownFormat(format)
  {
    i < |events| && events[i].Playout? && |Run(format, events[..i]).jitter.frames| >= 4
  }

  /** Some interval found four packets buffered. */
  ghost predicate FoundFour(format: int, events: seq<Event>)
    requires C.KnownFormat(format)
  {
    exists i: nat :: FourAt(format, events, i)
  }

  lemma {:induction false} InsertAllStarted(j: J.Jitter, ps: seq<Packet>)
    ensures InsertAll(j, ps).started == j.started
  {
    if ps != [] {
      InsertAllStarted(j, ps[..|ps| - 1]);
    }
  }

  lemma {:induction false} ChooseStarts(j: J.Jitter, sinceTrim: int, a: Arrivals)
    ensures Choose(j, sinceTrim, a).jitter.started <==> j.started || |j.frames| >= 4
    ensures Choose(j, sinceTrim, a).action.Silence? <==> !j.started && |j.frames| < 4
    ensures !j.started && |j.frames| >= 4 ==> Choose(j, sinceTrim, a).action.Play?
  {
    var (ticked, packet) := J.Tick(CONFIG, j);
    J.StepStarts(CONFIG, j, J.Playout);
    var j1 := InsertAll(ticked, a.afterTick);
    InsertAllStarted(ticked, a.afterTick);
    InsertAllStarted(j1, a.beforeSecond);
    var j2 := InsertAll(j1, a.beforeSecond);
    J.StepStarts(CONFIG, j2, J.Playout);
  }

  lemma {:induction false} StepStarts(format: int, s: Pump, e: Event)
    requires C.KnownFormat(format)
    ensures Step(format, s, e).state.jitter.started <==> s.jitter.started || (e.Playout? && |s.jitter.frames| >= 4)
  {
    if e.Playout? {
      var c := Choose(s.jitter, s.sinceTrim, e.arrivals);
      ChooseStarts(s.jitter, s.sinceTrim, e.arrivals);
      RenderKeeps(format, s, c, e.arrivals);
      InsertAllStarted(c.jitter, e.arrivals.beforeDepth);
    }
  }

  lemma {:induction false} FourSnoc(format: int, init: seq<Event>, e: Event)
    requires C.KnownFormat(format)
    ensures FoundFour(format, init + [e]) <==> FoundFour(format, init) || (e.Playout? && |Run(format, init).jitter.frames| >= 4)
  {
    var events := init + [e];
    assert events[..|init|] == init && events[|init|] == e;
    if i: nat :| FourAt(format, init, i) {
      assert events[..i] == init[..i] && events[i] == init[i];
      assert FourAt(format, events, i);
    }
    if e.Playout? && |Run(format, init).jitter.frames| >= 4 {
      assert FourAt(format, events, |init|);
    }
    if i: nat :| FourAt(format, events, i) {
      if i < |init| {
        assert events[..i] == init[..i] && events[i] == init[i];
        assert FourAt(format, init, i);
      }
    }
  }

  lemma {:induction false} StartsSnoc(format: int, init: seq<Event>, e: Event)
    requires C.KnownFormat(format)
    ensures Run(format, init + [e]).jitter.started
       <==> Run(format, init).jitter.started || (e.Playout? && |Run(format, init).jitter.frames| >= 4)
  {
    RunSnoc(format, init, e);
    StepStarts(format, Run(format, init), e);
  }

  /** In every run playout has begun exactly if some interval found four packets. */
  lemma {:induction false} StartsExactlyAtFour(format: int, events: seq<Event>)
    requires C.KnownFormat(format)
    ensures Run(format, events).jitter.started <==> FoundFour(format, events)
  {
    if events != [] {
      var init, e := events[..|events| - 1], events[|events| - 1];
      StartsExactlyAtFour(format, init);
      StartsSnoc(format, init, e);
      FourSnoc(format, init, e);
      assert events == init + [e];
    }
  }

  /** The interval that begins playout, or does not. */
  lemma {:induction false} FirstInterval(format: int, s: Pump, a: Arrivals)
    requires C.KnownFormat(format) && !s.jitter.started && !s.previousConcealed
    ensures var o := PlayoutOnce(format, s, a);
            && (o.written.Some? <==> |s.jitter.frames| >= 4)
            && (o.written.Some? ==> o.written.value.Real?)
            && (o.written.Some? && o.state.trimmed == s.trimmed ==> IsLeast(s.jitter, o.written.value.packet))
  {
    var c := Choose(s.jitter, s.sinceTrim, a);
    ChooseStarts(s.jitter, s.sinceTrim, a);
    if c.action.Play? && !c.action.trim {
      FirstPlayed(s.jitter, s.sinceTrim, a);
    }
  }

  /** `p` is held under the least sequence. */
  ghost predicate IsLeast(j: J.Jitter, p: Packet) {
    exists k :: k in j.frames && (forall h :: h in j.frames ==> k <= h) && p == j.frames[k]
  }

  lemma {:induction false} FirstPlayed(j: J.Jitter, sinceTrim: int, a: Arrivals)
    requires !j.started && |j.frames| >= 4
    ensures var action := Choose(j, sinceTrim, a).action; action.Play? && !action.trim ==> IsLeast(j, action.packet)
  {
    assert j.frames.Keys != {};
    var k := FirstKey(j.frames.Keys);
    assert k in j.frames && J.Tick(CONFIG, j).1 == Some(j.frames[k]);
  }

  /** Until then intervals write nothing; the first that finds four packets writes a real
      frame. Unless it trims, that is the packet with the least sequence, unaltered. */
  lemma {:induction false} FirstFrame(format: int, events: seq<Event>, a: Arrivals)
    requires C.KnownFormat(format) && !FoundFour(format, events)
    ensures var s := Run(format, events);
            var o := PlayoutOnce(format, s, a);
            && (o.written.Some? <==> |s.jitter.frames| >= 4)
            && (o.written.Some? ==> o.written.value.Real?)
            && (o.written.Some? && o.state.trimmed == s.trimmed ==> IsLeast(s.jitter, o.written.value.packet))
  {
    StartsExactlyAtFour(format, events);
    RunRemembers(format, events);
    FirstInterval(format, Run(format, events), a);
  }

  // ---- which packets are played ----

  /** What an interval plays is what its tick emits; but if more than 12 packets are then
      held and the last trim was 32 real frames ago, counting this one, it is what a second
      tick emits, if that emits. */
  lemma {:induction false} TrimsExactly(jitter: J.Jitter, sinceTrim: int, a: Arrivals)
    ensures var (ticked, first) := J.Tick(CONFIG, jitter);
            var deep := |InsertAll(ticked, a.afterTick).frames| > 12;
            var second := J.Tick(CONFIG, InsertAll(InsertAll(ticked, a.afterTick), a.beforeSecond)).1;
            var trims := first.Some? && deep && sinceTrim + 1 >= 32 && second.Some?;
            var action := Choose(jitter, sinceTrim, a).action;
            && (action.Play? <==> first.Some?)
            && (action.Play? && sinceTrim < 0x7FFF_FFFF ==>
                  action == if trims then Play(second.value, true) else Play(first.value, false))
  {
  }

  /** Real frames written since the last trim, as a Java int counts them; a run begins as if
      32 had been. */
  ghost function SinceLastTrim(format: int, events: seq<Event>): int
    requires C.KnownFormat(format)
  {
    if events == [] then 32
    else
      var init := events[..|events| - 1];
      var s := Run(format, init);
      var o := Step(format, s, events[|events| - 1]);
      if o.state.trimmed > s.trimmed then 0
      else if o.written.Some? && o.written.value.Real? then IntIncrement(SinceLastTrim(format, init))
      else SinceLastTrim(format, init)
  }

  lemma {:induction false} IntCounts(n: int)
    requires -0x8000_0000 <= n <= 0x7FFF_FFFF
    ensures IntIncrement(n) == if n < 0x7FFF_FFFF then n + 1 else -0x8000_0000
  {
  }

  lemma {:induction false} SinceTrimIsCounted(format: int, events: seq<Event>)
    requires C.KnownFormat(format)
    ensures Run(format, events).sinceTrim == SinceLastTrim(format, events)
  {
    if events != [] {
      var init, e := events[..|events| - 1], events[|events| - 1];
      SinceTrimIsCounted(format, init);
      var s := Run(format, init);
      if e.Playout? {
        RenderKeeps(format, s, Choose(s.jitter, s.sinceTrim, e.arrivals), e.arrivals);
      }
    }
  }

  /** The pump's buffer has room for 64 packets: a new one that is not late joins the others
      below that, and takes the place of one of them at that. */
  lemma {:induction false} RoomFor64(j: J.Jitter, p: Packet)
    requires p.sequence !in j.frames && (j.next.Some? ==> j.next.value <= p.sequence)
    ensures |j.frames| < 64 ==> J.Insert(CONFIG, j, p).frames == j.frames[p.sequence := p]
    ensures |j.frames| == 64 ==> exists gone :: J.GivesUp(j, p, J.Insert(CONFIG, j, p), gone)
  {
    J.InsertHoldsNewest(CONFIG, j, p);
  }

  /** A predicate on packets that hold of all that a buffer holds, or an event brings. */
  type Allowed = Packet -> bool

  ghost predicate HoldsOnly(allowed: Allowed, j: J.Jitter) {
    forall k :: k in j.frames ==> allowed(j.frames[k])
  }

  ghost predicate AllOf(allowed: Allowed, ps: seq<Packet>) {
    forall i :: 0 <= i < |ps| ==> allowed(ps[i])
  }

  ghost predicate BringsOnly(allowed: Allowed, e: Event) {
    match e
    case Insert(p) => allowed(p)
    case Playout(a) => AllOf(allowed, a.afterTick) && AllOf(allowed, a.beforeSecond) && AllOf(allowed, a.beforeDepth)
  }

  lemma {:induction false} InsertHolds(allowed: Allowed, j: J.Jitter, p: Packet)
    requires HoldsOnly(allowed, j) && allowed(p)
    ensures HoldsOnly(allowed, J.Insert(CONFIG, j, p))
  {
    forall k | k in J.InsertedFrames(CONFIG, j, p) ensures allowed(J.InsertedFrames(CONFIG, j, p)[k]) {
      J.InsertedKeys(CONFIG, j, p, k);
    }
  }

  lemma {:induction false} InsertAllHolds(allowed: Allowed, j: J.Jitter, ps: seq<Packet>)
    requires HoldsOnly(allowed, j) && AllOf(allowed, ps)
    ensures HoldsOnly(allowed, InsertAll(j, ps))
  {
    if ps != [] {
      InsertAllHolds(allowed, j, ps[..|ps| - 1]);
      InsertHolds(allowed, InsertAll(j, ps[..|ps| - 1]), ps[|ps| - 1]);
    }
  }

  lemma {:induction false} TickHolds(allowed: Allowed, j: J.Jitter)
    requires HoldsOnly(allowed, j)
    ensures var (after, p) := J.Tick(CONFIG, j); HoldsOnly(allowed, after) && (p.Some? ==> allowed(p.value))
  {
  }

  lemma {:induction false} ChooseHolds(allowed: Allowed, j: J.Jitter, sinceTrim: int, a: Arrivals)
    requires HoldsOnly(allowed, j) && AllOf(allowed, a.afterTick) && AllOf(allowed, a.beforeSecond)
    ensures var c := Choose(j, sinceTrim, a);
            HoldsOnly(allowed, c.jitter) && (c.action.Play? ==> allowed(c.action.packet))
  {
    var ticked := J.Tick(CONFIG, j).0;
    TickHolds(allowed, j);
    InsertAllHolds(allowed, ticked, a.afterTick);
    var j1 := InsertAll(ticked, a.afterTick);
    InsertAllHolds(allowed, j1, a.beforeSecond);
    TickHolds(allowed, InsertAll(j1, a.beforeSecond));
  }

  lemma {:induction false} StepHolds(allowed: Allowed, format: int, s: Pump, e: Event)
    requires C.KnownFormat(format) && HoldsOnly(allowed, s.jitter) && BringsOnly(allowed, e)
    ensures HoldsOnly(allowed, Step(format, s, e).state.jitter)
  {
    match e
    case Insert(p) => InsertHolds(allowed, s.jitter, p);
    case Playout(a) =>
      var c := Choose(s.jitter, s.sinceTrim, a);
      ChooseHolds(allowed, s.jitter, s.sinceTrim, a);
      RenderKeeps(format, s, c, a);
      InsertAllHolds(allowed, c.jitter, a.beforeDepth);
  }

  lemma {:induction false} RunHolds(allowed: Allowed, format: int, events: seq<Event>)
    requires C.KnownFormat(format) && forall i :: 0 <= i < |events| ==> BringsOnly(allowed, events[i])
    ensures HoldsOnly(allowed, Run(format, events).jitter)
  {
    if events != [] {
      var init, e := events[..|events| - 1], events[|events| - 1];
      RunHolds(allowed, format, init);
      StepHolds(allowed, format, Run(format, init), e);
    }
  }

  ghost predicate Brings(e: Event, p: Packet) {
    match e
    case Insert(q) => p == q
    case Playout(a) => p in a.afterTick || p in a.beforeSecond || p in a.beforeDepth
  }

  ghost predicate Arrived(events: seq<Event>, p: Packet) {
    exists i :: 0 <= i < |events| && Brings(events[i], p)
  }

  lemma {:induction false} BroughtHasArrived(events: seq<Event>, i: nat)
    requires i < |events|
    ensures BringsOnly(p => Arrived(events, p), events[i])
  {
    var e := events[i];
    forall p | Brings(e, p) ensures Arrived(events, p) {
    }
  }

  /** Nothing is made up: what an interval plays is a packet that has arrived. */
  lemma {:induction false} PlayedHasArrived(format: int, events: seq<Event>, a: Arrivals)
    requires C.KnownFormat(format)
    ensures var s := Run(format, events);
            var action := Choose(s.jitter, s.sinceTrim, a).action;
            action.Play? ==> Arrived(events + [Playout(a)], action.packet)
  {
    var all := events + [Playout(a)];
    forall i | 0 <= i < |events| ensures BringsOnly(p => Arrived(all, p), events[i]) {
      BroughtHasArrived(all, i);
      assert all[i] == events[i];
    }
    RunHolds(p => Arrived(all, p), format, events);
    BroughtHasArrived(all, |events|);
    var s := Run(format, events);
    ChooseHolds(p => Arrived(all, p), s.jitter, s.sinceTrim, a);
  }

  // ---- what is heard ----

  /** Everything a run has written. */
  ghost function Writes(format: int, events: seq<Event>): seq<Written>
    requires C.KnownFormat(format)
  {
    if events == [] then []
    else
      var init := events[..|events| - 1];
      AppendWrite(Writes(format, init), Step(format, Run(format, init), events[|events| - 1]).written)
  }

  ghost function AppendWrite(ws: seq<Written>, w: Option<Written>): seq<Written> {
    if w.Some? then ws + [w.value] else ws
  }

  /** The sample that was heard last; silence before anything was. */
  ghost function LastHeard(ws: seq<Written>): I16 {
    if ws == [] || ws[|ws| - 1].packet.samples == [] then 0
    else
      var samples := ws[|ws| - 1].packet.samples;
      samples[|samples| - 1]
  }

  ghost predicate AfterGap(ws: seq<Written>) {
    ws != [] && ws[|ws| - 1].Concealed?
  }

  /** What the pump remembers of what it has written. */
  ghost predicate Remembers(s: Pump, ws: seq<Written>) {
    && s.lastSample == LastHeard(ws) && s.previousConcealed == AfterGap(ws)
    && s.played == (ws != []) && s.jitter.started == (ws != [])
  }

  lemma {:induction false} ConcealedRemembers(format: int, s: Pump, jitter: J.Jitter, a: Arrivals, ws: seq<Written>)
    requires C.KnownFormat(format)
    ensures var o := PlayConcealed(format, s, jitter, a);
            && o.state.lastSample == LastHeard(ws + [o.written.value])
            && o.state.previousConcealed && AfterGap(ws + [o.written.value])
  {
    var (frame, end) := ConcealedFrame(format, s, J.PeekNext(jitter));
    RampIsExactAndMonotone(if s.played then s.lastSample else end, end, C.SampleCount(format));
  }

  lemma {:induction false} RenderRemembers(format: int, s: Pump, c: Choice, a: Arrivals, ws: seq<Written>)
    requires C.KnownFormat(format)
    requires s.lastSample == LastHeard(ws) && s.previousConcealed == AfterGap(ws) && s.played == (ws != [])
    ensures var o := Render(format, s, c, a);
            var after := AppendWrite(ws, o.written);
            o.state.lastSample == LastHeard(after) && o.state.previousConcealed == AfterGap(after)
            && o.state.played == (after != [])
  {
    if c.action.Missing? {
      ConcealedRemembers(format, s, c.jitter, a, ws);
    }
  }

  lemma {:induction false} StepRemembers(format: int, s: Pump, e: Event, out: seq<int>, ws: seq<Written>)
    requires C.KnownFormat(format) && Remembers(s, ws) && Balanced(s, out)
    ensures var o := Step(format, s, e); Remembers(o.state, AppendWrite(ws, o.written))
  {
    if e.Playout? {
      RenderRemembers(format, s, Choose(s.jitter, s.sinceTrim, e.arrivals), e.arrivals, ws);
      PlayoutKeeps(format, s, out, e.arrivals);
    }
  }

  /** In every run the pump remembers the last sample heard, whether the last frame was
      concealed, and whether any was written, which is so exactly when playout has begun. */
  lemma {:induction false} RunRemembers(format: int, events: seq<Event>)
    requires C.KnownFormat(format)
    ensures Remembers(Run(format, events), Writes(format, events))
  {
    if events != [] {
      var init, e := events[..|events| - 1], events[|events| - 1];
      RunRemembers(format, init);
      RunBalanced(format, init);
      StepRemembers(format, Run(format, init), e, RealWrites(format, init), Writes(format, init));
    }
  }

  /** The first sample of the packet at the playout position, or silence. */
  ghost function Upcoming(j: J.Jitter): I16 {
    if j.next.Some? && j.next.value in j.frames && j.frames[j.next.value].samples != []
    then j.frames[j.next.value].samples[0] else 0
  }

  /** How `w` sounds after `ws`. It is a full frame of the session's format. A concealed
      frame is a straight line from the sample heard last to the one coming next. A real
      frame is the packet played; after a concealed frame or a trim, its first 12 samples,
      or 24 at the wider format, blend from the sample heard last into its own. */
  ghost predicate Sounds(format: int, ws: seq<Written>, w: Written, played: Packet, trim: bool, coming: I16)
    requires C.KnownFormat(format)
  {
    var p, n, t := w.packet, C.SampleCount(format), if format == 2 then 24 else 12;
    && p.format == format && |p.samples| == n
    && (w.Concealed? ==>
          ws != [] && Glides(p.samples, LastHeard(ws), coming) && Interpolates(p.samples, LastHeard(ws), coming))
    && (w.Real? ==>
          && p == played.(samples := p.samples)
          && if AfterGap(ws) || trim
             then Fades(p.samples, LastHeard(ws), played.samples, t) && Weighs(p.samples, LastHeard(ws), played.samples, t)
             else p.samples == played.samples)
  }

  lemma {:induction false} ConcealedSounds(format: int, s: Pump, jitter: J.Jitter, a: Arrivals, ws: seq<Written>, played: Packet)
    requires C.KnownFormat(format) && s.lastSample == LastHeard(ws) && s.played && ws != []
    ensures Sounds(format, ws, PlayConcealed(format, s, jitter, a).written.value, played, false, Upcoming(jitter))
  {
    var n := C.SampleCount(format);
    RampIsExactAndMonotone(s.lastSample, Upcoming(jitter), n);
    RampInterpolates(s.lastSample, Upcoming(jitter), n);
  }

  lemma {:induction false} RealSounds(
      format: int, s: Pump, jitter: J.Jitter, p: Packet, trim: bool, a: Arrivals, ws: seq<Written>, coming: I16)
    requires C.KnownFormat(format) && Playable(format, p)
    requires s.lastSample == LastHeard(ws) && s.previousConcealed == AfterGap(ws)
    ensures Sounds(format, ws, PlayReal(format, s, jitter, p, trim, a).written.value, p, trim, coming)
  {
    var t := if format == 2 then 24 else 12;
    BlendRejoins(s.lastSample, p.samples, t);
    BlendWeighs(s.lastSample, p.samples, t);
  }

  ghost predicate AllPlayable(format: int, events: seq<Event>) {
    forall i :: 0 <= i < |events| ==> BringsOnly(p => Playable(format, p), events[i])
  }

  /** What is heard over whole runs of well-formed arrivals, inserts falling anywhere. */
  lemma {:induction false} EveryWrittenFrame(format: int, events: seq<Event>, a: Arrivals)
    requires C.KnownFormat(format) && AllPlayable(format, events + [Playout(a)])
    ensures var s, ws := Run(format, events), Writes(format, events);
            var c, w := Choose(s.jitter, s.sinceTrim, a), PlayoutOnce(format, s, a).written;
            && (w.Some? && w.value.Real? <==> c.action.Play?)
            && (w.Some? ==>
                  Sounds(format, ws, w.value, if c.action.Play? then c.action.packet else w.value.packet,
                         c.action.Play? && c.action.trim, Upcoming(c.jitter)))
  {
    var all := events + [Playout(a)];
    assert BringsOnly(p => Playable(format, p), all[|events|]);
    forall i | 0 <= i < |events| ensures BringsOnly(p => Playable(format, p), events[i]) {
      assert all[i] == events[i];
    }
    RunHolds(p => Playable(format, p), format, events);
    var s, ws := Run(format, events), Writes(format, events);
    ChooseHolds(p => Playable(format, p), s.jitter, s.sinceTrim, a);
    RunRemembers(format, events);
    RenderSounds(format, s, Choose(s.jitter, s.sinceTrim, a), a, ws);
    StillStarted(s.jitter, s.sinceTrim, a);
  }

  /** An interval conceals only when playout had begun before it. */
  lemma {:induction false} StillStarted(j: J.Jitter, sinceTrim: int, a: Arrivals)
    ensures Choose(j, sinceTrim, a).action.Missing? ==> j.started
  {
    ChooseStarts(j, sinceTrim, a);
  }

  lemma {:induction false} RenderSounds(format: int, s: Pump, c: Choice, a: Arrivals, ws: seq<Written>)
    requires C.KnownFormat(format) && (c.action.Play? ==> Playable(format, c.action.packet))
    requires s.lastSample == LastHeard(ws) && s.previousConcealed == AfterGap(ws) && s.played == (ws != [])
    ensures var w := Render(format, s, c, a).written;
            && (w.Some? && w.value.Real? <==> c.action.Play?)
            && (w.Some? && (c.action.Missing? ==> ws != []) ==>
                  Sounds(format, ws, w.value, if c.action.Play? then c.action.packet else w.value.packet,
                         c.action.Play? && c.action.trim, Upcoming(c.jitter)))
  {
    match c.action
    case Silence =>
    case Missing =>
      if ws != [] {
        ConcealedSounds(format, s, c.jitter, a, ws, PlayConcealed(format, s, c.jitter, a).written.value.packet);
      }
    case Play(p, trim) => RealSounds(format, s, c.jitter, p, trim, a, ws, Upcoming(c.jitter));
  }

  // ---- how fast frames follow each other ----

  /** Each frame written moves the pace by one step of 15000 ns or not at all. A real frame
      with more than five packets left speeds playout up, to the limit; with four or five
      it takes back a slow pace and with fewer than three a fast one, to the middle; with
      three it changes nothing. A concealed frame slows playout down, to the limit. */
  lemma {:induction false} PacingDirection(format: int, events: seq<Event>, a: Arrivals)
    requires C.KnownFormat(format)
    ensures var s := Run(format, events);
            var o := PlayoutOnce(format, s, a);
            var depth, p, q := |o.state.jitter.frames|, s.pacing, o.state.pacing;
            && (o.written.None? ==> q == p)
            && (o.written.Some? && o.written.value.Concealed? ==> q == if p < 150000 then p + 15000 else p)
            && (o.written.Some? && o.written.value.Real? ==>
                  && (depth > 5 ==> q == if p > -300000 then p - 15000 else p)
                  && (4 <= depth <= 5 ==> q == if p > 0 then p - 15000 else p)
                  && (depth == 3 ==> q == p)
                  && (depth < 3 ==> q == if p < 0 then p + 15000 else p))
  {
    PacingBounded(format, events);
    var s := Run(format, events);
    RenderPace(format, s, Choose(s.jitter, s.sinceTrim, a), a);
    PaceSteps(s.pacing, |PlayoutOnce(format, s, a).state.jitter.frames|);
  }

  lemma {:induction false} RenderPace(format: int, s: Pump, c: Choice, a: Arrivals)
    requires C.KnownFormat(format)
    ensures var o := Render(format, s, c, a);
            && (o.written.None? ==> o.state.pacing == s.pacing)
            && (o.written.Some? && o.written.value.Concealed? ==> o.state.pacing == PacedConcealed(s.pacing))
            && (o.written.Some? && o.written.value.Real? ==>
                  o.state.pacing == PacedReal(s.pacing, |o.state.jitter.frames|))
  {
  }

  lemma {:induction false} PaceSteps(p: int, depth: nat)
    requires MAX_FAST_PACING <= p <= MAX_SLOW_PACING && p % PACING_STEP == 0
    ensures PacedConcealed(p) == if p < 150000 then p + 15000 else p
    ensures depth > 5 ==> PacedReal(p, depth) == if p > -300000 then p - 15000 else p
    ensures 4 <= depth <= 5 ==> PacedReal(p, depth) == if p > 0 then p - 15000 else p
    ensures depth == 3 ==> PacedReal(p, depth) == p
    ensures depth < 3 ==> PacedReal(p, depth) == if p < 0 then p + 15000 else p
  {
  }
}

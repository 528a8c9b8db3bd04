/** The daemon's jitter buffer: ordered frames, keep-the-nearest overflow, and a
    playout position that advances on every tick. */
module RustJitter {
  import opened Common
  import opened JitterLog
  import C = AudioCodec

  type Frame = C.AudioFrame

  type Jitter = Buffer<Frame, Summary>

  /** The counters as the source holds them: they saturate. `depth` is stored too. */
  datatype Summary = Summary(
    depth: nat, received: U64, emitted: U64, duplicate: U64, late: U64, missing: U64, overflow: U64)

  const EMPTY: Jitter := Held(map[], None, false, Summary(0, 0, 0, 0, 0, 0, 0))

  // ---- the buffer as a state machine ----

  function InsertedFrames(c: Config, j: Jitter, f: Frame): map<int, Frame>
    requires c.Valid()
  {
    match InsertEffect(c, j, f.sequence)
    case Stored => j.frames[f.sequence := f]
    case Overflowed =>
      var furthest := LastKey(j.frames.Keys);
      if f.sequence >= furthest then j.frames else (j.frames - {furthest})[f.sequence := f]
    case _ => j.frames
  }

  function Insert(c: Config, j: Jitter, f: Frame): Jitter
    requires c.Valid()
  {
    var e, frames, s := InsertEffect(c, j, f.sequence), InsertedFrames(c, j, f), j.books;
    j.(frames := frames,
       books := Summary(
         |frames|, SaturatingIncrement(s.received), s.emitted,
         if e.Duplicate? then SaturatingIncrement(s.duplicate) else s.duplicate,
         if e.Late? then SaturatingIncrement(s.late) else s.late,
         s.missing,
         if e.Overflowed? then SaturatingIncrement(s.overflow) else s.overflow))
  }

  /** Plays position `at`: the frame there, or a miss. */
  function Play(j: Jitter, at: int): (Jitter, Option<Frame>) {
    var next, s := (if at == U64_MAX then None else Some(at + 1)), j.books;
    if at in j.frames then
      var frames := j.frames - {at};
      (Held(frames, next, true, s.(depth := |frames|, emitted := SaturatingIncrement(s.emitted))),
       Some(j.frames[at]))
    else
      (Held(j.frames, next, true, s.(missing := SaturatingIncrement(s.missing))), None)
  }

  function Tick(c: Config, j: Jitter): (Jitter, Option<Frame>)
    requires c.Valid()
  {
    match Position(c, j)
    case None => (j, None)
    case Some(at) => Play(j, at)
  }

  class JitterBuffer {
    const config: Config
    var frames: map<int, Frame>
    var next: Option<int>
    var started: bool
    var summary: Summary

    predicate Valid()
      reads this
    {
      config.Valid() && summary.depth == |frames|
    }

    function View(): Jitter
      reads this
    {
      Held(frames, next, started, summary)
    }

    constructor (config: Config)
      requires config.Valid()
      ensures Valid() && View() == EMPTY && this.config == config
    {
      this.config := config;
      frames, next, started, summary := map[], None, false, Summary(0, 0, 0, 0, 0, 0, 0);
    }

    method InsertFrame(f: Frame)
      requires Valid()
      modifies this
      ensures Valid() && View() == Insert(config, old(View()), f)
    {
      summary := summary.(received := SaturatingIncrement(summary.received));
      var sequence := f.sequence;
      if next.Some? && sequence < next.value {
        summary := summary.(late := SaturatingIncrement(summary.late));
        return;
      }
      if sequence in frames {
        summary := summary.(duplicate := SaturatingIncrement(summary.duplicate));
        return;
      }
      if |frames| == config.capacity {
        summary := summary.(overflow := SaturatingIncrement(summary.overflow));
        var furthest := LastKey(frames.Keys);
        if sequence >= furthest {
          return;
        }
        frames := frames - {furthest};
      }
      frames := frames[sequence := f];
      summary := summary.(depth := |frames|);
    }

    method TickFrame() returns (r: Option<Frame>)
      requires Valid()
      modifies this
      ensures Valid() && (View(), r) == Tick(config, old(View()))
    {
      if !started {
        if |frames| < config.target {
          return None;
        }
        next := Some(FirstKey(frames.Keys));
        started := true;
      }
      if next.None? {
        return None;
      }
      var sequence := next.value;
      next := if sequence == U64_MAX then None else Some(sequence + 1);
      if sequence in frames {
        r := Some(frames[sequence]);
        frames := frames - {sequence};
        summary := summary.(emitted := SaturatingIncrement(summary.emitted), depth := |frames|);
      } else {
        r := None;
        summary := summary.(missing := SaturatingIncrement(summary.missing));
      }
    }
  }

  /** `JitterBuffer::new`: no buffer for a capacity or target depth that makes no sense. */
  method NewJitterBuffer(capacity: nat, target: nat) returns (r: Option<JitterBuffer>)
    ensures r.Some? <==> 0 < target <= capacity
    ensures r.Some? ==> fresh(r.value) && r.value.Valid() && r.value.View() == EMPTY
                        && r.value.config == Config(capacity, target)
  {
    if capacity == 0 || target == 0 || target > capacity {
      return None;
    }
    var buffer := new JitterBuffer(Config(capacity, target));
    return Some(buffer);
  }

  // ---- whole runs ----

  datatype Event = Arrive(frame: Frame) | Playout

  function Step(c: Config, j: Jitter, e: Event): Jitter
    requires c.Valid()
  {
    if e.Arrive? then Insert(c, j, e.frame) else Tick(c, j).0
  }

  function EffectOf(c: Config, j: Jitter, e: Event): Effect
    requires c.Valid()
  {
    if e.Arrive? then InsertEffect(c, j, e.frame.sequence) else TickEffect(c, j)
  }

  ghost function Run(c: Config, events: seq<Event>): Jitter
    requires c.Valid()
  {
    if events == [] then EMPTY
    else Step(c, Run(c, events[..|events| - 1]), events[|events| - 1])
  }

  ghost function Log(c: Config, events: seq<Event>): seq<Effect>
    requires c.Valid()
  {
    if events == [] then []
    else
      var init := events[..|events| - 1];
      Log(c, init) + [EffectOf(c, Run(c, init), events[|events| - 1])]
  }

  /** A state and the true counts of the run that led to it. */
  ghost predicate Accounted(c: Config, j: Jitter, t: Tally) {
    && j.books == Summary(|j.frames|, Saturate(t.received), Saturate(t.emitted), Saturate(t.duplicate),
                            Saturate(t.late), Saturate(t.missing), Saturate(t.overflow))
    && t.received == t.emitted + t.duplicate + t.late + t.overflow + |j.frames|
    && |j.frames| <= c.capacity
  }

  /** A state and the sequences emitted by the run that led to it. */
  ghost predicate Ordered(j: Jitter, out: seq<int>) {
    && Increasing(out)
    && (forall k :: k in j.frames ==> j.frames[k].sequence == k)
    && (j.next.Some? ==> forall k :: k in j.frames ==> j.next.value <= k)
    && (j.next.Some? ==> forall i :: 0 <= i < |out| ==> out[i] < j.next.value)
    && (j.started <==> out != [])
    && (!j.started ==> j.next.None?)
  }

  /** After playout began at the first emitted sequence, every tick advances the
      position by one, as an emission or as a miss. */
  ghost predicate Positioned(j: Jitter, out: seq<int>, t: Tally) {
    && |out| == t.emitted
    && (out == [] ==> t.missing == 0)
    && (out != [] ==>
          var at := out[0] + t.emitted + t.missing;
          j.next == if at <= U64_MAX then Some(at) else None)
  }

  lemma {:induction false} InsertedKeySet(c: Config, j: Jitter, f: Frame)
    requires c.Valid()
    ensures var held, e, after := j.frames.Keys, InsertEffect(c, j, f.sequence), InsertedFrames(c, j, f).Keys;
            after == if e.Stored? then held + {f.sequence}
                     else if e.Overflowed? && f.sequence < LastKey(held) then held - {LastKey(held)} + {f.sequence}
                     else held
  {
    var held, e, after := j.frames.Keys, InsertEffect(c, j, f.sequence), InsertedFrames(c, j, f);
    if e.Stored? {
      assert after.Keys == held + {f.sequence};
    } else if e.Overflowed? && f.sequence < LastKey(held) {
      assert after == (j.frames - {LastKey(held)})[f.sequence := f];
      assert after.Keys == held - {LastKey(held)} + {f.sequence};
    }
  }

  lemma {:induction false} InsertedSize(c: Config, j: Jitter, f: Frame)
    requires c.Valid()
    ensures |InsertedFrames(c, j, f)|
         == |j.frames| + (if InsertEffect(c, j, f.sequence).Stored? then 1 else 0)
  {
    InsertedKeySet(c, j, f);
    var held, after := j.frames.Keys, InsertedFrames(c, j, f).Keys;
    assert |after| == |InsertedFrames(c, j, f)|;
    if InsertEffect(c, j, f.sequence).Overflowed? && f.sequence < LastKey(held) {
      assert |held - {LastKey(held)}| == |held| - 1;
    }
  }

  lemma {:induction false} AccountedInsert(c: Config, j: Jitter, t: Tally, f: Frame)
    requires c.Valid() && Accounted(c, j, t)
    ensures Accounted(c, Insert(c, j, f), Bump(t, InsertEffect(c, j, f.sequence)))
  {
    InsertedSize(c, j, f);
  }

  lemma {:induction false} AccountedPlay(c: Config, j: Jitter, t: Tally, at: int)
    requires Accounted(c, j, t)
    ensures Accounted(c, Play(j, at).0, Bump(t, PlayEffect(j, at)))
  {
    if at in j.frames {
      MapSizes(j.frames, at, j.frames[at]);
    }
  }

  /** Insertion moves nothing but frames, and never behind the position. */
  lemma {:induction false} InsertedKeys(c: Config, j: Jitter, f: Frame, k: int)
    requires c.Valid() && k in InsertedFrames(c, j, f)
    ensures || (k in j.frames && InsertedFrames(c, j, f)[k] == j.frames[k])
            || (&& k == f.sequence && InsertedFrames(c, j, f)[k] == f
                && (j.next.Some? ==> j.next.value <= k))
  {
  }

  lemma {:induction false} OrderedInsert(c: Config, j: Jitter, out: seq<int>, f: Frame)
    requires c.Valid() && Ordered(j, out)
    ensures Ordered(Insert(c, j, f), out)
  {
    var frames := InsertedFrames(c, j, f);
    forall k | k in frames ensures frames[k].sequence == k && (j.next.Some? ==> j.next.value <= k) {
      InsertedKeys(c, j, f, k);
    }
  }

  /** What a tick may play: the position, or the first held sequence to begin with. */
  ghost predicate Playable(j: Jitter, at: int) {
    && at <= U64_MAX
    && if j.started then j.next == Some(at) else at in j.frames && forall k :: k in j.frames ==> at <= k
  }

  lemma {:induction false} OrderedPlay(j: Jitter, out: seq<int>, at: int)
    requires Ordered(j, out) && Playable(j, at)
    ensures Ordered(Play(j, at).0, Emitting(out, PlayEffect(j, at)))
  {
    assert forall i :: 0 <= i < |out| ==> out[i] < at;
  }

  lemma {:induction false} PositionedPlay(j: Jitter, out: seq<int>, t: Tally, at: int)
    requires Ordered(j, out) && Positioned(j, out, t) && Playable(j, at)
    ensures Positioned(Play(j, at).0, Emitting(out, PlayEffect(j, at)), Bump(t, PlayEffect(j, at)))
  {
  }

  lemma {:induction false} PositionIsPlayable(c: Config, j: Jitter, out: seq<int>, t: Tally)
    requires c.Valid() && Ordered(j, out) && Positioned(j, out, t) && Position(c, j).Some?
    ensures Playable(j, Position(c, j).value)
  {
    var at := Position(c, j).value;
    if !j.started {
      assert j.frames[at].sequence == at;
    }
  }

  ghost predicate Good(c: Config, j: Jitter, out: seq<int>, t: Tally) {
    Accounted(c, j, t) && Ordered(j, out) && Positioned(j, out, t)
  }

  lemma {:induction false} InsertHolds(c: Config, j: Jitter, out: seq<int>, t: Tally, f: Frame)
    requires c.Valid() && Good(c, j, out, t)
    ensures Good(c, Insert(c, j, f), out, Bump(t, InsertEffect(c, j, f.sequence)))
  {
    AccountedInsert(c, j, t, f);
    OrderedInsert(c, j, out, f);
  }

  lemma {:induction false} PlayHolds(c: Config, j: Jitter, out: seq<int>, t: Tally, at: int)
    requires Good(c, j, out, t) && Playable(j, at)
    ensures Good(c, Play(j, at).0, Emitting(out, PlayEffect(j, at)), Bump(t, PlayEffect(j, at)))
  {
    AccountedPlay(c, j, t, at);
    OrderedPlay(j, out, at);
    PositionedPlay(j, out, t, at);
  }

  lemma {:induction false} StepHolds(c: Config, j: Jitter, out: seq<int>, t: Tally, e: Event)
    requires c.Valid() && Good(c, j, out, t)
    ensures Good(c, Step(c, j, e), Emitting(out, EffectOf(c, j, e)), Bump(t, EffectOf(c, j, e)))
  {
    if e.Arrive? {
      InsertHolds(c, j, out, t, e.frame);
    } else if Position(c, j).Some? {
      PositionIsPlayable(c, j, out, t);
      PlayHolds(c, j, out, t, Position(c, j).value);
    }
  }

  lemma {:induction false} RunHolds(c: Config, events: seq<Event>)
    requires c.Valid()
    ensures Good(c, Run(c, events), Emissions(Log(c, events)), TallyOf(Log(c, events)))
  {
    if events != [] {
      var init, e := events[..|events| - 1], events[|events| - 1];
      RunHolds(c, init);
      var j, log := Run(c, init), Log(c, init);
      LogSnoc(log, EffectOf(c, j, e));
      StepHolds(c, j, Emissions(log), TallyOf(log), e);
    }
  }

  /** Conservation: in every run, every frame received was emitted, or counted as
      duplicate, late or overflow, or is still held; the counters are the true
      counts, saturated; the buffer never exceeds its capacity. */
  lemma {:induction false} Conservation(c: Config, events: seq<Event>)
    requires c.Valid()
    ensures var j, t := Run(c, events), TallyOf(Log(c, events));
            && t.received == t.emitted + t.duplicate + t.late + t.overflow + |j.frames|
            && |j.frames| <= c.capacity && j.books.depth == |j.frames|
            && j.books.received == Saturate(t.received) && j.books.emitted == Saturate(t.emitted)
            && j.books.duplicate == Saturate(t.duplicate) && j.books.late == Saturate(t.late)
            && j.books.missing == Saturate(t.missing) && j.books.overflow == Saturate(t.overflow)
  {
    RunHolds(c, events);
  }

  /** Emitted sequences strictly increase, held frames are filed under their own sequence
      and none is behind the playout position, and that position is the first emitted
      sequence plus all ticks counted since. */
  ghost predicate PlaysInOrder(j: Jitter, out: seq<int>, t: Tally) {
    && Increasing(out)
    && (forall k :: k in j.frames ==> j.frames[k].sequence == k && (j.next.Some? ==> j.next.value <= k))
    && (j.started ==>
          && out != []
          && var at := out[0] + t.emitted + t.missing;
             j.next == if at <= U64_MAX then Some(at) else None)
  }

  lemma {:induction false} GoodPlaysInOrder(c: Config, j: Jitter, out: seq<int>, t: Tally)
    requires Good(c, j, out, t)
    ensures PlaysInOrder(j, out, t)
  {
  }

  /** Every run plays in order. */
  lemma {:induction false} PlayoutOrder(c: Config, events: seq<Event>)
    requires c.Valid()
    ensures PlaysInOrder(Run(c, events), Emissions(Log(c, events)), TallyOf(Log(c, events)))
  {
    RunHolds(c, events);
    GoodPlaysInOrder(c, Run(c, events), Emissions(Log(c, events)), TallyOf(Log(c, events)));
  }

  lemma {:induction false} HeldArrived(c: Config, events: seq<Event>, k: int)
    requires c.Valid() && k in Run(c, events).frames
    ensures Arrive(Run(c, events).frames[k]) in events
  {
    var init, e := events[..|events| - 1], events[|events| - 1];
    var j := Run(c, init);
    if e.Arrive? {
      InsertedKeys(c, j, e.frame, k);
    }
    if e != Arrive(Run(c, events).frames[k]) {
      HeldArrived(c, init, k);
    }
  }

  /** What a tick hands out is a frame that arrived, and it is the one the log
      records as emitted. */
  lemma {:induction false} EmittedFrameArrived(c: Config, events: seq<Event>)
    requires c.Valid()
    ensures var j := Run(c, events);
            match Tick(c, j).1
            case None => !TickEffect(c, j).Emitted?
            case Some(f) => TickEffect(c, j) == Emitted(f.sequence) && Arrive(f) in events
  {
    RunHolds(c, events);
    var j := Run(c, events);
    if TickEffect(c, j).Emitted? {
      HeldArrived(c, events, TickEffect(c, j).sequence);
    }
  }

  // ---- overflow policy before playout ----

  ghost function Arrived(events: seq<Event>): set<int> {
    set i | 0 <= i < |events| && events[i].Arrive? :: events[i].frame.sequence
  }

  lemma {:induction false} ArrivedSnoc(init: seq<Event>, e: Event)
    ensures Arrived(init + [e]) == Arrived(init) + (if e.Arrive? then {e.frame.sequence} else {})
  {
    var events := init + [e];
    forall x | x in Arrived(init) ensures x in Arrived(events) {
      var i :| 0 <= i < |init| && init[i].Arrive? && init[i].frame.sequence == x;
      assert events[i] == init[i];
    }
    assert events[|init|] == e;
  }

  lemma {:induction false} SubsetSameSize(a: set<int>, b: set<int>)
    requires a <= b && |a| == |b|
    ensures a == b
  {
    assert |b - a| == |b| - |a|;
  }

  /** `held` are the `capacity` smallest of `all`, or all of them. */
  ghost predicate Smallest(held: set<int>, all: set<int>, capacity: nat) {
    && held <= all && |held| == Min(capacity, |all|)
    && forall k, x :: k in held && x in all && x !in held ==> k < x
  }

  lemma {:induction false} SmallestStored(held: set<int>, all: set<int>, capacity: nat, x: int)
    requires Smallest(held, all, capacity) && |held| < capacity && x !in held
    ensures Smallest(held + {x}, all + {x}, capacity)
  {
    SubsetSameSize(held, all);
  }

  lemma {:induction false} SmallestRejected(held: set<int>, all: set<int>, capacity: nat, x: int)
    requires Smallest(held, all, capacity) && |held| == capacity && x !in held
    requires forall k :: k in held ==> k < x
    ensures Smallest(held, all + {x}, capacity)
  {
    SubsetSize(all, all + {x});
  }

  lemma {:induction false} SmallestReplaced(held: set<int>, all: set<int>, capacity: nat, furthest: int, x: int)
    requires Smallest(held, all, capacity) && |held| == capacity && x !in held
    requires furthest in held && x < furthest && forall k :: k in held ==> k <= furthest
    ensures Smallest(held - {furthest} + {x}, all + {x}, capacity)
  {
    assert x !in all;
    assert |held - {furthest}| == |held| - 1;
    SubsetSize(all, all + {x});
  }

  lemma {:induction false} SubsetSize(a: set<int>, b: set<int>)
    requires a <= b
    ensures |a| <= |b|
  {
    assert |b - a| == |b| - |a|;
  }

  lemma {:induction false} SmallestStep(c: Config, j: Jitter, all: set<int>, f: Frame)
    requires c.Valid() && j.next.None? && Smallest(j.frames.Keys, all, c.capacity)
    ensures Smallest(Insert(c, j, f).frames.Keys, all + {f.sequence}, c.capacity)
  {
    var held, x := j.frames.Keys, f.sequence;
    InsertedKeySet(c, j, f);
    if x in held {
      assert all + {x} == all;
    } else if |held| < c.capacity {
      SmallestStored(held, all, c.capacity, x);
    } else if x < LastKey(held) {
      SmallestReplaced(held, all, c.capacity, LastKey(held), x);
    } else {
      SmallestRejected(held, all, c.capacity, x);
    }
  }

  /** Until playout begins the buffer holds exactly the `capacity` smallest distinct
      sequences that ever arrived. */
  lemma {:induction false} HoldsSmallest(c: Config, events: seq<Event>)
    requires c.Valid() && !Run(c, events).started
    ensures Smallest(Run(c, events).frames.Keys, Arrived(events), c.capacity)
  {
    if events != [] {
      var init, e := events[..|events| - 1], events[|events| - 1];
      assert events == init + [e];
      ArrivedSnoc(init, e);
      HoldsSmallest(c, init);
      RunHolds(c, init);
      if e.Arrive? {
        SmallestStep(c, Run(c, init), Arrived(init), e.frame);
      }
    } else {
      assert Arrived(events) == {};
    }
  }

  // ---- when playout begins ----

  /** Event `i` is a tick that finds the target depth reached. */
  ghost predicate DeepEnoughAt(c: Config, events: seq<Event>, i: nat)
    requires c.Valid()
  {
    i < |events| && events[i].Playout? && |Run(c, events[..i]).frames| >= c.target
  }

  /** Some tick found the target depth reached. */
  ghost predicate DeepEnough(c: Config, events: seq<Event>)
    requires c.Valid()
  {
    exists i: nat :: DeepEnoughAt(c, events, i)
  }

  lemma {:induction false} StepStarts(c: Config, j: Jitter, e: Event)
    requires c.Valid()
    ensures Step(c, j, e).started <==> j.started || (e.Playout? && |j.frames| >= c.target)
  {
  }

  lemma {:induction false} DeepEnoughSnoc(c: Config, init: seq<Event>, e: Event)
    requires c.Valid()
    ensures DeepEnough(c, init + [e]) <==> DeepEnough(c, init) || (e.Playout? && |Run(c, init).frames| >= c.target)
  {
    var events := init + [e];
    assert events[..|init|] == init && events[|init|] == e;
    if i: nat :| DeepEnoughAt(c, init, i) {
      assert events[..i] == init[..i] && events[i] == init[i];
      assert DeepEnoughAt(c, events, i);
    }
    if e.Playout? && |Run(c, init).frames| >= c.target {
      assert DeepEnoughAt(c, events, |init|);
    }
    if i: nat :| DeepEnoughAt(c, events, i) {
      if i < |init| {
        assert events[..i] == init[..i] && events[i] == init[i];
        assert DeepEnoughAt(c, init, i);
      }
    }
  }

  /** In every run playout has begun exactly if some tick found the target depth reached. */
  lemma {:induction false} StartsExactlyAtTarget(c: Config, events: seq<Event>)
    requires c.Valid()
    ensures Run(c, events).started <==> DeepEnough(c, events)
  {
    if events != [] {
      var init, e := events[..|events| - 1], events[|events| - 1];
      StartsExactlyAtTarget(c, init);
      StepStarts(c, Run(c, init), e);
      DeepEnoughSnoc(c, init, e);
      assert events == init + [e];
    }
  }

  /** Until then a tick yields nothing and changes nothing; the first that finds the depth
      reached yields the frame with the least sequence held. */
  lemma {:induction false} FirstTickEmitsLeast(c: Config, events: seq<Event>)
    requires c.Valid() && !DeepEnough(c, events)
    ensures var j := Run(c, events);
            && (|j.frames| < c.target ==> Tick(c, j) == (j, None))
            && (|j.frames| >= c.target ==>
                  exists k :: && k in j.frames && (forall h :: h in j.frames ==> k <= h)
                              && Tick(c, j).1 == Some(j.frames[k]))
  {
    StartsExactlyAtTarget(c, events);
    var j := Run(c, events);
    if |j.frames| >= c.target {
      assert j.frames.Keys != {};
      var k := FirstKey(j.frames.Keys);
      assert k in j.frames;
    }
  }

  /** While playing, a tick yields the frame held at the position, if any, and the position
      moves on by one. */
  lemma {:induction false} PlayingTick(c: Config, j: Jitter, at: int)
    requires c.Valid() && j.started && j.next == Some(at)
    ensures var (after, out) := Tick(c, j);
            && after.started
            && after.next == (if at == U64_MAX then None else Some(at + 1))
            && (at in j.frames ==> out == Some(j.frames[at]) && after.frames == j.frames - {at})
            && (at !in j.frames ==> out.None? && after.frames == j.frames)
  {
  }

  /** What an insertion does to the frames held. A late or duplicate frame changes nothing.
      Otherwise the nearest `capacity` of the frames held and the new one are held, each
      as it arrived. */
  lemma {:induction false} InsertKeepsNearest(c: Config, j: Jitter, f: Frame)
    requires c.Valid() && |j.frames| <= c.capacity
    ensures var after := Step(c, j, Arrive(f));
            var late, held := j.next.Some? && f.sequence < j.next.value, f.sequence in j.frames;
            && after.next == j.next && after.started == j.started
            && (late || held ==> after.frames == j.frames)
            && (!late && !held ==>
                  && Smallest(after.frames.Keys, j.frames.Keys + {f.sequence}, c.capacity)
                  && forall k :: k in after.frames ==>
                       after.frames[k] == if k == f.sequence then f else j.frames[k])
  {
    InsertedKeySet(c, j, f);
    var keys, x := j.frames.Keys, f.sequence;
    assert |keys| == |j.frames|;
    if InsertEffect(c, j, x).Stored? {
      SmallestAll(keys, c.capacity);
      SmallestStored(keys, keys, c.capacity, x);
    } else if InsertEffect(c, j, x).Overflowed? {
      SmallestAll(keys, c.capacity);
      if x < LastKey(keys) {
        SmallestReplaced(keys, keys, c.capacity, LastKey(keys), x);
      } else {
        SmallestRejected(keys, keys, c.capacity, x);
      }
    }
  }

  lemma {:induction false} SmallestAll(s: set<int>, capacity: nat)
    requires |s| <= capacity
    ensures Smallest(s, s, capacity)
  {
  }

  /** Which counter an insertion raises, besides the one of frames received. */
  lemma {:induction false} InsertCounts(c: Config, j: Jitter, f: Frame)
    requires c.Valid()
    ensures var before, after := j.books, Step(c, j, Arrive(f)).books;
            var late, held := j.next.Some? && f.sequence < j.next.value, f.sequence in j.frames;
            var full := |j.frames| == c.capacity;
            && after.received == Saturate(before.received + 1)
            && after.late == (if late then Saturate(before.late + 1) else before.late)
            && after.duplicate == (if !late && held then Saturate(before.duplicate + 1) else before.duplicate)
            && after.overflow == (if !late && !held && full then Saturate(before.overflow + 1) else before.overflow)
            && after.emitted == before.emitted && after.missing == before.missing
  {
  }

  /** And a tick while playing: emitted or missing. */
  lemma {:induction false} TickCounts(c: Config, j: Jitter, at: int)
    requires c.Valid() && j.started && j.next == Some(at)
    ensures var before, after := j.books, Tick(c, j).0.books;
            && after.emitted == (if at in j.frames then Saturate(before.emitted + 1) else before.emitted)
            && after.missing == (if at in j.frames then before.missing else Saturate(before.missing + 1))
            && after.received == before.received && after.late == before.late
            && after.duplicate == before.duplicate && after.overflow == before.overflow
  {
  }
}

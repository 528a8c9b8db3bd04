/** The handset's jitter buffer. It differs from the daemon's in two ways: a full
    buffer gives way to a newer frame by dropping its oldest, and an empty buffer
    holds the playout position instead of advancing it. */
module JavaJitter {
  import opened Common
  import opened JitterLog
  import C = AudioCodec

  type Packet = C.Decoded

  type Jitter = Buffer<Packet, Tally>

  const EMPTY: Jitter := Held(map[], None, false, ZERO)

  // ---- the buffer as a state machine ----

  /** A full buffer makes room: the furthest frame goes if the new one is nearer,
      otherwise the oldest goes. */
  function Evicted(j: Jitter, sequence: int): int
    requires j.frames != map[]
  {
    if sequence < LastKey(j.frames.Keys) then LastKey(j.frames.Keys) else FirstKey(j.frames.Keys)
  }

  function InsertedFrames(c: Config, j: Jitter, p: Packet): map<int, Packet>
    requires c.Valid()
  {
    match InsertEffect(c, j, p.sequence)
    case Stored => j.frames[p.sequence := p]
    case Overflowed => (j.frames - {Evicted(j, p.sequence)})[p.sequence := p]
    case _ => j.frames
  }

  predicate DropsOldest(c: Config, j: Jitter, sequence: int)
    requires c.Valid()
  {
    InsertEffect(c, j, sequence).Overflowed? && sequence >= LastKey(j.frames.Keys)
  }

  /** Dropping the oldest moves the position up to the first frame still held. */
  function InsertedNext(c: Config, j: Jitter, p: Packet): Option<int>
    requires c.Valid()
  {
    if !DropsOldest(c, j, p.sequence) || !j.started || j.next.None? then j.next
    else
      var frames := InsertedFrames(c, j, p);
      assert p.sequence in frames;
      if j.next.value < FirstKey(frames.Keys) then Some(FirstKey(frames.Keys)) else j.next
  }

  function Insert(c: Config, j: Jitter, p: Packet): Jitter
    requires c.Valid()
  {
    Held(InsertedFrames(c, j, p), InsertedNext(c, j, p), j.started,
           Bump(j.books, InsertEffect(c, j, p.sequence)))
  }

  function After(at: int): Option<int> {
    if at == I64_MAX then None else Some(at + 1)
  }

  /** Plays position `at`; an empty buffer keeps the position. */
  function Play(j: Jitter, at: int): (Jitter, Option<Packet>) {
    var tally := Bump(j.books, PlayEffect(j, at));
    if at in j.frames then (Held(j.frames - {at}, After(at), true, tally), Some(j.frames[at]))
    else (Held(j.frames, if j.frames == map[] then Some(at) else After(at), true, tally), None)
  }

  function Tick(c: Config, j: Jitter): (Jitter, Option<Packet>)
    requires c.Valid()
  {
    match Position(c, j)
    case None => (j, None)
    case Some(at) => Play(j, at)
  }

  function PeekNext(j: Jitter): Option<Packet> {
    if j.next.Some? && j.next.value in j.frames then Some(j.frames[j.next.value]) else None
  }

  class AudioJitterBuffer {
    const config: Config
    var frames: map<int, Packet>
    var next: Option<int>
    var started: bool
    var tally: Tally

    function View(): Jitter
      reads this
    {
      Held(frames, next, started, tally)
    }

    constructor (config: Config)
      requires config.Valid()
      ensures View() == EMPTY && this.config == config
    {
      this.config := config;
      frames, next, started, tally := map[], None, false, ZERO;
    }

    method InsertPacket(p: Packet)
      requires config.Valid()
      modifies this
      ensures View() == Insert(config, old(View()), p)
    {
      tally := tally.(received := tally.received + 1);
      var sequence := p.sequence;
      if next.Some? && sequence < next.value {
        tally := tally.(late := tally.late + 1);
        return;
      }
      if sequence in frames {
        tally := tally.(duplicate := tally.duplicate + 1);
        return;
      }
      if |frames| == config.capacity {
        tally := tally.(overflow := tally.overflow + 1);
        var furthest := LastKey(frames.Keys);
        if sequence < furthest {
          frames := frames - {furthest};
        } else {
          frames := frames - {FirstKey(frames.Keys)};
          frames := frames[sequence := p];
          assert sequence in frames.Keys;
          if started && next.Some? && next.value < FirstKey(frames.Keys) {
            next := Some(FirstKey(frames.Keys));
          }
          return;
        }
      }
      frames := frames[sequence := p];
    }

    method TickPacket() returns (r: Option<Packet>)
      requires config.Valid()
      modifies this
      ensures (View(), r) == Tick(config, old(View()))
    {
      if !started {
        if |frames| < config.target {
          return None;
        }
        next := Some(FirstKey(frames.Keys));
        started := true;
      }
      if next.None? {
        return None;
      }
      var sequence := next.value;
      if sequence !in frames {
        tally := tally.(missing := tally.missing + 1);
        if |frames| == 0 {
          return None;
        }
        next := if sequence == I64_MAX then None else Some(sequence + 1);
        return None;
      }
      r := Some(frames[sequence]);
      frames := frames - {sequence};
      next := if sequence == I64_MAX then None else Some(sequence + 1);
      tally := tally.(emitted := tally.emitted + 1);
    }

    method HasStarted() returns (r: bool)
      ensures r == View().started
    {
      return started;
    }

    method Peek() returns (r: Option<Packet>)
      ensures r == PeekNext(View())
    {
      if next.None? {
        return None;
      }
      return if next.value in frames then Some(frames[next.value]) else None;
    }

    method Depth() returns (n: nat)
      ensures n == |View().frames|
    {
      return |frames|;
    }
  }

  /** The constructor's check; `None` stands for an `IllegalArgumentException`. */
  method NewJitterBuffer(capacity: int, target: int) returns (r: Option<AudioJitterBuffer>)
    ensures r.Some? <==> 0 < target <= capacity
    ensures r.Some? ==> fresh(r.value) && r.value.View() == EMPTY && r.value.config == Config(capacity, target)
  {
    if capacity <= 0 || target <= 0 || target > capacity {
      return None;
    }
    var buffer := new AudioJitterBuffer(Config(capacity, target));
    return Some(buffer);
  }

  // ---- whole runs ----

  datatype Event = Arrive(packet: Packet) | Playout

  function Step(c: Config, j: Jitter, e: Event): Jitter
    requires c.Valid()
  {
    if e.Arrive? then Insert(c, j, e.packet) else Tick(c, j).0
  }

  function EffectOf(c: Config, j: Jitter, e: Event): Effect
    requires c.Valid()
  {
    if e.Arrive? then InsertEffect(c, j, e.packet.sequence) else TickEffect(c, j)
  }

  ghost function Run(c: Config, events: seq<Event>): Jitter
    requires c.Valid()
  {
    if events == [] then EMPTY
    else Step(c, Run(c, events[..|events| - 1]), events[|events| - 1])
  }

  ghost function Log(c: Config, events: seq<Event>): seq<Effect>
    requires c.Valid()
  {
    if events == [] then []
    else
      var init := events[..|events| - 1];
      Log(c, init) + [EffectOf(c, Run(c, init), events[|events| - 1])]
  }

  /** Every packet received is accounted for, within the capacity. */
  ghost predicate Accounted(c: Config, j: Jitter) {
    var t := j.books;
    && t.received == t.emitted + t.duplicate + t.late + t.overflow + |j.frames|
    && |j.frames| <= c.capacity
  }

  ghost predicate Filed(j: Jitter) {
    && (forall k :: k in j.frames ==> j.frames[k].sequence == k)
    && (j.next.Some? ==> forall k :: k in j.frames ==> j.next.value <= k)
    && (!j.started ==> j.next.None?)
  }

  ghost predicate Ordered(j: Jitter, out: seq<int>) {
    && Increasing(out) && Filed(j)
    && (j.next.Some? ==> j.next.value <= I64_MAX && forall i :: 0 <= i < |out| ==> out[i] < j.next.value)
    && (!j.started ==> out == [])
  }

  lemma {:induction false} SwapSize<V>(m: map<int, V>, gone: int, k: int, v: V)
    requires gone in m && k !in m
    ensures |(m - {gone})[k := v]| == |m|
  {
    MapSizes(m, gone, v);
    MapSizes(m - {gone}, k, v);
  }

  lemma {:induction false} InsertedSize(c: Config, j: Jitter, p: Packet)
    requires c.Valid()
    ensures |InsertedFrames(c, j, p)|
         == |j.frames| + (if InsertEffect(c, j, p.sequence).Stored? then 1 else 0)
  {
    match InsertEffect(c, j, p.sequence)
    case Stored => MapSizes(j.frames, p.sequence, p);
    case Overflowed => SwapSize(j.frames, Evicted(j, p.sequence), p.sequence, p);
    case _ =>
  }

  lemma {:induction false} InsertedKeys(c: Config, j: Jitter, p: Packet, k: int)
    requires c.Valid() && k in InsertedFrames(c, j, p)
    ensures || (k in j.frames && InsertedFrames(c, j, p)[k] == j.frames[k])
            || (&& k == p.sequence && InsertedFrames(c, j, p)[k] == p
                && (j.next.Some? ==> j.next.value <= k))
  {
  }

  lemma {:induction false} OrderedInsert(c: Config, j: Jitter, out: seq<int>, p: Packet)
    requires c.Valid() && Ordered(j, out)
    ensures Ordered(Insert(c, j, p), out)
  {
    var frames := InsertedFrames(c, j, p);
    forall k | k in frames ensures frames[k].sequence == k && (j.next.Some? ==> j.next.value <= k) {
      InsertedKeys(c, j, p, k);
    }
    if InsertedNext(c, j, p) != j.next {
      var first := FirstKey(frames.Keys);
      assert frames[first].sequence == first;
    }
  }

  ghost predicate Playable(j: Jitter, at: int) {
    && at <= I64_MAX
    && if j.started then j.next == Some(at) else at in j.frames && forall k :: k in j.frames ==> at <= k
  }

  lemma {:induction false} PositionIsPlayable(c: Config, j: Jitter, out: seq<int>)
    requires c.Valid() && Ordered(j, out) && Position(c, j).Some?
    ensures Playable(j, Position(c, j).value)
  {
    var at := Position(c, j).value;
    if !j.started {
      assert j.frames[at].sequence == at;
    }
  }

  lemma {:induction false} OrderedPlay(j: Jitter, out: seq<int>, at: int)
    requires Ordered(j, out) && Playable(j, at)
    ensures Ordered(Play(j, at).0, Emitting(out, PlayEffect(j, at)))
  {
    assert forall i :: 0 <= i < |out| ==> out[i] < at;
  }

  lemma {:induction false} PlayAccounted(c: Config, j: Jitter, at: int)
    requires Accounted(c, j)
    ensures Accounted(c, Play(j, at).0)
  {
    if at in j.frames {
      MapSizes(j.frames, at, j.frames[at]);
    }
  }

  lemma {:induction false} StepAccounted(c: Config, j: Jitter, e: Event)
    requires c.Valid() && Accounted(c, j)
    ensures Accounted(c, Step(c, j, e))
    ensures Step(c, j, e).books == Bump(j.books, EffectOf(c, j, e))
  {
    if e.Arrive? {
      InsertedSize(c, j, e.packet);
    } else if Position(c, j).Some? {
      PlayAccounted(c, j, Position(c, j).value);
    }
  }

  lemma {:induction false} StepOrdered(c: Config, j: Jitter, out: seq<int>, e: Event)
    requires c.Valid() && Ordered(j, out)
    ensures Ordered(Step(c, j, e), Emitting(out, EffectOf(c, j, e)))
  {
    if e.Arrive? {
      OrderedInsert(c, j, out, e.packet);
    } else if Position(c, j).Some? {
      PositionIsPlayable(c, j, out);
      OrderedPlay(j, out, Position(c, j).value);
    }
  }

  /** In every run of arrivals and ticks: the counters count the log; received is
      emitted plus duplicate, late, overflow and depth; the capacity is never
      exceeded; emitted sequences strictly increase; held packets are filed under
      their own sequence and none is behind the playout position. */
  lemma {:induction false} RunHolds(c: Config, events: seq<Event>)
    requires c.Valid()
    ensures var j, log := Run(c, events), Log(c, events);
            j.books == TallyOf(log) && Accounted(c, j) && Ordered(j, Emissions(log))
  {
    if events != [] {
      var init, e := events[..|events| - 1], events[|events| - 1];
      RunHolds(c, init);
      var j, log := Run(c, init), Log(c, init);
      LogSnoc(log, EffectOf(c, j, e));
      StepAccounted(c, j, e);
      StepOrdered(c, j, Emissions(log), e);
    }
  }

  // ---- gap and overflow policy ----

  ghost function Ticks(c: Config, j: Jitter, n: nat): Jitter
    requires c.Valid()
  {
    if n == 0 then j else Tick(c, Ticks(c, j, n - 1)).0
  }

  /** Playing, nonempty and without arrivals: exactly as many ticks as the gap is wide
      yield nothing, and the one after yields the first held packet. */
  lemma {:induction false} GapPolicy(c: Config, j: Jitter, n: nat)
    requires c.Valid() && Filed(j) && j.started && j.next.Some? && j.frames != map[]
    requires n <= FirstKey(j.frames.Keys) - j.next.value
    ensures var first, k := FirstKey(j.frames.Keys), Ticks(c, j, n);
            && k.frames == j.frames && k.started && k.next == Some(j.next.value + n)
            && (n < first - j.next.value ==> Tick(c, k).1.None?)
            && (n == first - j.next.value ==> Tick(c, k).1 == Some(j.frames[first]))
  {
    if n > 0 {
      GapPolicy(c, j, n - 1);
    }
  }

  /** After an overflow that drops the oldest packet, the very next tick emits. */
  lemma {:induction false} EmitsAfterDropOldest(c: Config, j: Jitter, p: Packet)
    requires c.Valid() && Filed(j) && j.started && j.next.Some? && DropsOldest(c, j, p.sequence)
    ensures var after := Insert(c, j, p);
            after.frames != map[] && Tick(c, after).1 == Some(after.frames[FirstKey(after.frames.Keys)])
  {
    var frames := InsertedFrames(c, j, p);
    assert p.sequence in frames;
    var first := FirstKey(frames.Keys);
    InsertedKeys(c, j, p, first);
  }

  // ---- nothing is made up ----

  lemma {:induction false} HeldArrived(c: Config, events: seq<Event>, k: int)
    requires c.Valid() && k in Run(c, events).frames
    ensures Arrive(Run(c, events).frames[k]) in events
  {
    var init, e := events[..|events| - 1], events[|events| - 1];
    if e.Arrive? {
      InsertedKeys(c, Run(c, init), e.packet, k);
    }
    if e != Arrive(Run(c, events).frames[k]) {
      HeldArrived(c, init, k);
    }
  }

  /** What a tick hands out is a packet that arrived, and it is the one the log
      records as emitted. */
  lemma {:induction false} EmittedPacketArrived(c: Config, events: seq<Event>)
    requires c.Valid()
    ensures var j := Run(c, events);
            match Tick(c, j).1
            case None => !TickEffect(c, j).Emitted?
            case Some(p) => TickEffect(c, j) == Emitted(p.sequence) && Arrive(p) in events
  {
    RunHolds(c, events);
    var j := Run(c, events);
    if TickEffect(c, j).Emitted? {
      HeldArrived(c, events, TickEffect(c, j).sequence);
    }
  }

  // ---- when playout begins ----

  /** Event `i` is a tick that finds the target depth reached. */
  ghost predicate DeepEnoughAt(c: Config, events: seq<Event>, i: nat)
    requires c.Valid()
  {
    i < |events| && events[i].Playout? && |Run(c, events[..i]).frames| >= c.target
  }

  /** Some tick found the target depth reached. */
  ghost predicate DeepEnough(c: Config, events: seq<Event>)
    requires c.Valid()
  {
    exists i: nat :: DeepEnoughAt(c, events, i)
  }

  lemma {:induction false} StepStarts(c: Config, j: Jitter, e: Event)
    requires c.Valid()
    ensures Step(c, j, e).started <==> j.started || (e.Playout? && |j.frames| >= c.target)
  {
  }

  lemma {:induction false} DeepEnoughSnoc(c: Config, init: seq<Event>, e: Event)
    requires c.Valid()
    ensures DeepEnough(c, init + [e]) <==> DeepEnough(c, init) || (e.Playout? && |Run(c, init).frames| >= c.target)
  {
    var events := init + [e];
    assert events[..|init|] == init && events[|init|] == e;
    if i: nat :| DeepEnoughAt(c, init, i) {
      assert events[..i] == init[..i] && events[i] == init[i];
      assert DeepEnoughAt(c, events, i);
    }
    if e.Playout? && |Run(c, init).frames| >= c.target {
      assert DeepEnoughAt(c, events, |init|);
    }
    if i: nat :| DeepEnoughAt(c, events, i) {
      if i < |init| {
        assert events[..i] == init[..i] && events[i] == init[i];
        assert DeepEnoughAt(c, init, i);
      }
    }
  }

  /** In every run playout has begun exactly if some tick found the target depth reached. */
  lemma {:induction false} StartsExactlyAtTarget(c: Config, events: seq<Event>)
    requires c.Valid()
    ensures Run(c, events).started <==> DeepEnough(c, events)
  {
    if events != [] {
      var init, e := events[..|events| - 1], events[|events| - 1];
      StartsExactlyAtTarget(c, init);
      StepStarts(c, Run(c, init), e);
      DeepEnoughSnoc(c, init, e);
      assert events == init + [e];
    }
  }

  /** Until then a tick yields nothing and changes nothing; the first that finds the depth
      reached yields the packet with the least sequence held. */
  lemma {:induction false} FirstTickEmitsLeast(c: Config, events: seq<Event>)
    requires c.Valid() && !DeepEnough(c, events)
    ensures var j := Run(c, events);
            && (|j.frames| < c.target ==> Tick(c, j) == (j, None))
            && (|j.frames| >= c.target ==>
                  exists k :: && k in j.frames && (forall h :: h in j.frames ==> k <= h)
                              && Tick(c, j).1 == Some(j.frames[k]))
  {
    StartsExactlyAtTarget(c, events);
    var j := Run(c, events);
    if |j.frames| >= c.target {
      assert j.frames.Keys != {};
      var k := FirstKey(j.frames.Keys);
      assert k in j.frames;
    }
  }

  /** While playing, a tick yields the packet held at the position, if any. The position
      moves on by one, but an empty buffer keeps it. */
  lemma {:induction false} PlayingTick(c: Config, j: Jitter, at: int)
    requires c.Valid() && j.started && j.next == Some(at)
    ensures var (after, out) := Tick(c, j);
            && after.started
            && after.next == (if at !in j.frames && |j.frames| == 0 then Some(at) else if at == I64_MAX then None else Some(at + 1))
            && (at in j.frames ==> out == Some(j.frames[at]) && after.frames == j.frames - {at})
            && (at !in j.frames ==> out.None? && after.frames == j.frames)
  {
  }

  /** What an insertion does to the packets held. A late or duplicate packet changes
      nothing; any other is held. A full buffer gives up exactly one packet for it: the
      furthest if the new one is nearer than that, and otherwise the oldest, after which
      a position behind everything held moves up to the first packet. */
  lemma {:induction false} InsertHoldsNewest(c: Config, j: Jitter, p: Packet)
    requires c.Valid()
    ensures var after := Step(c, j, Arrive(p));
            var late, held := j.next.Some? && p.sequence < j.next.value, p.sequence in j.frames;
            && after.started == j.started
            && (late || held ==> after.frames == j.frames && after.next == j.next)
            && (!late && !held && |j.frames| != c.capacity ==>
                  after.frames == j.frames[p.sequence := p] && after.next == j.next)
            && (!late && !held && |j.frames| == c.capacity ==>
                  exists gone :: GivesUp(j, p, after, gone))
  {
    if InsertEffect(c, j, p.sequence).Overflowed? {
      var after, gone := Insert(c, j, p), Evicted(j, p.sequence);
      assert p.sequence in after.frames;
      assert GivesUp(j, p, after, gone);
    }
  }

  ghost predicate GivesUp(j: Jitter, p: Packet, after: Jitter, gone: int) {
    && gone in j.frames && after.frames == (j.frames - {gone})[p.sequence := p]
    && (if exists k :: k in j.frames && p.sequence < k
        then (forall k :: k in j.frames ==> k <= gone) && after.next == j.next
        else && (forall k :: k in j.frames ==> gone <= k)
             && if j.started && j.next.Some? && forall k :: k in after.frames ==> j.next.value < k
                then after.next.Some? && after.next.value in after.frames
                     && forall k :: k in after.frames ==> after.next.value <= k
                else after.next == j.next)
  }

  /** Which counter an insertion raises, besides the one of packets received. */
  lemma {:induction false} InsertCounts(c: Config, j: Jitter, p: Packet)
    requires c.Valid()
    ensures var t, after := j.books, Step(c, j, Arrive(p)).books;
            var late, held := j.next.Some? && p.sequence < j.next.value, p.sequence in j.frames;
            after == if late then t.(received := t.received + 1, late := t.late + 1)
                     else if held then t.(received := t.received + 1, duplicate := t.duplicate + 1)
                     else if |j.frames| == c.capacity then t.(received := t.received + 1, overflow := t.overflow + 1)
                     else t.(received := t.received + 1)
  {
  }

  /** And a tick while playing: emitted or missing. */
  lemma {:induction false} TickCounts(c: Config, j: Jitter, at: int)
    requires c.Valid() && j.started && j.next == Some(at)
    ensures var t := j.books;
            Tick(c, j).0.books == if at in j.frames then t.(emitted := t.emitted + 1) else t.(missing := t.missing + 1)
  {
  }
}

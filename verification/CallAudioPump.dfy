/** The playout pump: one jitter tick per interval, trimming when the buffer runs
    deep, concealment when a frame is missing, and adaptive pacing. The receive
    thread's inserts are atomic and may fall between any two of the pump's calls into
    the buffer; `Arrivals` says which ones do. */
module CallAudioPump {
  import opened Common
  import opened JitterLog
  import opened Concealment
  import C = AudioCodec
  import B = AudioBatch
  import J = JavaJitter

  type Packet = C.Decoded

  const CONFIG := Config(64, 4)
  const PACING_STEP := 15000
  const MAX_SLOW_PACING := 150000
  const MAX_FAST_PACING := -300000
  const TRIM_HIGH_WATER := 12
  const MIN_FRAMES_BETWEEN_TRIMS := 32
  const TARGET_DEPTH := 4

  /** A packet that `receiveOnce` lets through: the session's format, a full frame. */
  predicate Playable(format: int, p: Packet) {
    C.KnownFormat(format) && p.format == format && |p.samples| == C.SampleCount(format)
  }

  /** Packets inserted between the calls of one `playoutOnce`: after its tick, before
      its second tick or look-ahead, and before its last look at the depth. */
  datatype Arrivals = Arrivals(afterTick: seq<Packet>, beforeSecond: seq<Packet>, beforeDepth: seq<Packet>)

  datatype Written = Real(packet: Packet) | Concealed(packet: Packet)

  datatype Pump = Pump(
    jitter: J.Jitter, lastSample: I16, played: bool, previousConcealed: bool,
    pacing: int, trimmed: nat, sinceTrim: int, concealed: nat)

  const INITIAL := Pump(J.EMPTY, 0, false, false, 0, 0, MIN_FRAMES_BETWEEN_TRIMS, 0)

  datatype Outcome = Outcome(state: Pump, written: Option<Written>)

  /** A Java `int` increment wraps around. */
  function IntIncrement(n: int): int {
    if n == 0x7FFF_FFFF then -0x8000_0000 else n + 1
  }

  function InsertAll(j: J.Jitter, ps: seq<Packet>): J.Jitter {
    if ps == [] then j else J.Insert(CONFIG, InsertAll(j, ps[..|ps| - 1]), ps[|ps| - 1])
  }

  function TransitionSamples(format: int, length: nat): nat {
    Min(length, if format == 2 then 24 else 12)
  }

  function SmoothRecovery(format: int, last: I16, p: Packet): Packet {
    p.(samples := Blend(last, p.samples, TransitionSamples(format, |p.samples|)))
  }

  /** The frame that stands in for a missing one, ending where the next one starts. */
  function ConcealedFrame(format: int, s: Pump, next: Option<Packet>): (Packet, I16)
    requires C.KnownFormat(format)
  {
    var end: I16 := if next.Some? && next.value.samples != [] then next.value.samples[0] else 0;
    var start := if s.played then s.lastSample else end;
    (C.Decoded(format, 0, 0, Ramp(start, end, C.SampleCount(format))), end)
  }

  function PacedReal(pacing: int, depth: nat): int {
    if depth > TARGET_DEPTH + 1 then Max(MAX_FAST_PACING, pacing - PACING_STEP)
    else if depth >= TARGET_DEPTH && pacing > 0 then Max(0, pacing - PACING_STEP)
    else if depth < TARGET_DEPTH - 1 && pacing < 0 then Min(0, pacing + PACING_STEP)
    else pacing
  }

  function PacedConcealed(pacing: int): int {
    Min(MAX_SLOW_PACING, pacing + PACING_STEP)
  }

  function LastSample(samples: seq<I16>): I16 {
    if samples == [] then 0 else samples[|samples| - 1]
  }

  /** Writes a real frame, after a trim or not. */
  function PlayReal(format: int, s: Pump, jitter: J.Jitter, p: Packet, trim: bool, a: Arrivals): Outcome {
    var out := if s.previousConcealed || trim then SmoothRecovery(format, s.lastSample, p) else p;
    var j := InsertAll(jitter, a.beforeDepth);
    Outcome(
      s.(jitter := j, lastSample := LastSample(out.samples), played := true, previousConcealed := false,
         pacing := PacedReal(s.pacing, |j.frames|),
         trimmed := if trim then s.trimmed + 1 else s.trimmed,
         sinceTrim := if trim then 0 else IntIncrement(s.sinceTrim)),
      Some(Real(out)))
  }

  function PlayConcealed(format: int, s: Pump, jitter: J.Jitter, a: Arrivals): Outcome
    requires C.KnownFormat(format)
  {
    var (frame, end) := ConcealedFrame(format, s, J.PeekNext(jitter));
    Outcome(
      s.(jitter := InsertAll(jitter, a.beforeDepth), lastSample := end, played := true,
         previousConcealed := true, pacing := PacedConcealed(s.pacing), concealed := s.concealed + 1),
      Some(Concealed(frame)))
  }

  /** What one `playoutOnce` gets from the jitter buffer. */
  datatype Action = Silence | Missing | Play(packet: Packet, trim: bool)

  datatype Choice = Choice(jitter: J.Jitter, action: Action)

  /** The buffer's part of `playoutOnce`: a tick, and a second one when the buffer is
      deep and the last trim is long ago. */
  function Choose(jitter: J.Jitter, sinceTrim: int, a: Arrivals): Choice {
    var (ticked, packet) := J.Tick(CONFIG, jitter);
    var j1 := InsertAll(ticked, a.afterTick);
    var j2 := InsertAll(j1, a.beforeSecond);
    if packet.None? then Choice(j2, if j1.started then Missing else Silence)
    else if |j1.frames| > TRIM_HIGH_WATER && IntIncrement(sinceTrim) >= MIN_FRAMES_BETWEEN_TRIMS then
      var (j3, newer) := J.Tick(CONFIG, j2);
      Choice(j3, if newer.Some? then Play(newer.value, true) else Play(packet.value, false))
    else Choice(j2, Play(packet.value, false))
  }

  function Render(format: int, s: Pump, c: Choice, a: Arrivals): Outcome
    requires C.KnownFormat(format)
  {
    match c.action
    case Silence => Outcome(s.(jitter := InsertAll(c.jitter, a.beforeDepth)), None)
    case Missing => PlayConcealed(format, s, c.jitter, a)
    case Play(p, trim) => PlayReal(format, s, c.jitter, p, trim, a)
  }

  function PlayoutOnce(format: int, s: Pump, a: Arrivals): Outcome
    requires C.KnownFormat(format)
  {
    Render(format, s, Choose(s.jitter, s.sinceTrim, a), a)
  }

  // ---- the pump object ----

  class CallAudioPump {
    const format: int
    const jitter: J.AudioJitterBuffer
    var lastSample: I16
    var played: bool
    var previousConcealed: bool
    var pacing: int
    var trimmed: nat
    var sinceTrim: int
    var concealed: nat

    ghost predicate Valid()
      reads this
    {
      C.KnownFormat(format) && jitter.config == CONFIG
    }

    ghost function View(): Pump
      reads this, jitter
    {
      Pump(jitter.View(), lastSample, played, previousConcealed, pacing, trimmed, sinceTrim, concealed)
    }

    constructor (format: int)
      requires C.KnownFormat(format)
      ensures Valid() && View() == INITIAL && this.format == format && fresh(jitter)
    {
      this.format := format;
      jitter := new J.AudioJitterBuffer(CONFIG);
      lastSample, played, previousConcealed := 0, false, false;
      pacing, trimmed, sinceTrim, concealed := 0, 0, MIN_FRAMES_BETWEEN_TRIMS, 0;
    }

    /** What the receive thread inserts at one point. */
    method Receive(ps: seq<Packet>)
      requires Valid()
      modifies jitter
      ensures Valid() && jitter.View() == InsertAll(old(jitter.View()), ps)
    {
      for i := 0 to |ps|
        invariant jitter.View() == InsertAll(old(jitter.View()), ps[..i])
      {
        assert ps[..i + 1][..i] == ps[..i];
        jitter.InsertPacket(ps[i]);
      }
      assert ps[..|ps|] == ps;
    }

    /** `receiveOnce`: a malformed batch or a foreign format inserts nothing. */
    method ReceiveOnce(bytes: Bytes) returns (ok: bool, ghost ws: seq<C.Wire>, ghost ps: seq<Packet>)
      requires Valid()
      modifies jitter
      ensures Valid()
      ensures ok ==> B.ValidBatch(ws) && B.EncodeBatch(ws) == bytes && B.JavaAgrees(ps, ws)
                     && ws[0].format == format && jitter.View() == InsertAll(old(jitter.View()), ps)
      ensures !ok ==> jitter.View() == old(jitter.View())
                      && (B.NotABatch(bytes) || (B.ValidBatch(ws) && B.EncodeBatch(ws) == bytes && ws[0].format != format))
    {
      var decoded;
      decoded, ws := B.JavaDecodeBatch(bytes);
      ps := [];
      if decoded.None? {
        return false, ws, ps;
      }
      for i := 0 to |decoded.value|
        invariant jitter.View() == old(jitter.View())
        invariant forall k :: 0 <= k < i ==> decoded.value[k].format == format
      {
        if decoded.value[i].format != format {
          return false, ws, ps;
        }
      }
      assert decoded.value[0].format == format;
      ps := decoded.value;
      Receive(decoded.value);
      return true, ws, ps;
    }

    method Smooth(p: Packet) returns (r: Packet)
      ensures r == SmoothRecovery(format, lastSample, p)
    {
      var samples := FillBlend(lastSample, p.samples, TransitionSamples(format, |p.samples|));
      return p.(samples := samples[..]);
    }

    method Conceal() returns (r: Packet)
      requires Valid()
      modifies this
      ensures Valid() && jitter.View() == old(jitter.View())
      ensures ConcealedFrame(format, old(View()), J.PeekNext(jitter.View())) == (r, lastSample)
      ensures View() == old(View()).(lastSample := lastSample, played := true)
    {
      var next := jitter.Peek();
      var end: I16 := if next.Some? && next.value.samples != [] then next.value.samples[0] else 0;
      var start := if played then lastSample else end;
      var samples := FillRamp(start, end, C.SampleCount(format));
      lastSample := end;
      played := true;
      return C.Decoded(format, 0, 0, samples[..]);
    }

    /** The calls into the buffer that decide what to play. */
    method ChoosePacket(a: Arrivals) returns (action: Action)
      requires Valid()
      modifies jitter
      ensures Valid() && Choose(old(jitter.View()), sinceTrim, a) == Choice(jitter.View(), action)
    {
      var packet := jitter.TickPacket();
      Receive(a.afterTick);
      if packet.None? {
        var started := jitter.HasStarted();
        Receive(a.beforeSecond);
        return if started then Missing else Silence;
      }
      var depth := jitter.Depth();
      Receive(a.beforeSecond);
      if depth > TRIM_HIGH_WATER && IntIncrement(sinceTrim) >= MIN_FRAMES_BETWEEN_TRIMS {
        var newer := jitter.TickPacket();
        if newer.Some? {
          return Play(newer.value, true);
        }
      }
      return Play(packet.value, false);
    }

    method PlayPacket(packet: Packet, trim: bool, a: Arrivals) returns (written: Written)
      requires Valid()
      modifies this, jitter
      ensures Valid()
      ensures PlayReal(format, old(View()), old(jitter.View()), packet, trim, a) == Outcome(View(), Some(written))
    {
      var p := packet;
      sinceTrim := IntIncrement(sinceTrim);
      if trim {
        trimmed := trimmed + 1;
        sinceTrim := 0;
        previousConcealed := true;
      }
      if previousConcealed {
        p := Smooth(p);
      }
      written := Real(p);
      lastSample := LastSample(p.samples);
      played := true;
      previousConcealed := false;
      Receive(a.beforeDepth);
      var depth := jitter.Depth();
      AdjustPacing(depth);
    }

    method PlayMissing(a: Arrivals) returns (written: Written)
      requires Valid()
      modifies this, jitter
      ensures Valid()
      ensures PlayConcealed(format, old(View()), old(jitter.View()), a) == Outcome(View(), Some(written))
    {
      var frame := Conceal();
      written := Concealed(frame);
      concealed := concealed + 1;
      previousConcealed := true;
      pacing := Min(MAX_SLOW_PACING, pacing + PACING_STEP);
      Receive(a.beforeDepth);
    }

    method AdjustPacing(depth: nat)
      modifies this`pacing
      ensures pacing == PacedReal(old(pacing), depth)
    {
      if depth > TARGET_DEPTH + 1 {
        pacing := Max(MAX_FAST_PACING, pacing - PACING_STEP);
      } else if depth >= TARGET_DEPTH && pacing > 0 {
        pacing := Max(0, pacing - PACING_STEP);
      } else if depth < TARGET_DEPTH - 1 && pacing < 0 {
        pacing := Min(0, pacing + PACING_STEP);
      }
    }

    /** `playoutOnce`, with the receive thread's inserts falling where `a` says. */
    method Playout(a: Arrivals) returns (written: Option<Written>)
      requires Valid()
      modifies this, jitter
      ensures Valid() && PlayoutOnce(format, old(View()), a) == Outcome(View(), written)
    {
      var action := ChoosePacket(a);
      match action
      case Silence =>
        Receive(a.beforeDepth);
        written := None;
      case Missing =>
        var w := PlayMissing(a);
        written := Some(w);
      case Play(packet, trim) =>
        var w := PlayPacket(packet, trim, a);
        written := Some(w);
    }
  }

  /** The constructor's check; `None` stands for an `IllegalArgumentException`. */
  method NewCallAudioPump(format: int) returns (r: Option<CallAudioPump>)
    ensures r.Some? <==> C.KnownFormat(format)
    ensures r.Some? ==> fresh(r.value) && r.value.Valid() && r.value.View() == INITIAL && r.value.format == format
  {
    if !C.KnownFormat(format) {
      return None;
    }
    var pump := new CallAudioPump(format);
    return Some(pump);
  }

  // ---- the microphone side ----

  /** `captureBatch`: `read[i]` is what the microphone returned for the i-th sequence
      number asked for. Exactly four full frames of the session's format, numbered as
      asked, become a message. */
  method CaptureBatch(format: int, firstSequence: I64, read: seq<Packet>) returns (message: Option<Bytes>)
    requires |read| == C.MAX_BATCH_FRAMES
    ensures message.Some? <==>
              && firstSequence >= 0
              && forall i :: 0 <= i < |read| ==> Playable(format, read[i]) && read[i].sequence == firstSequence + i
    ensures message.Some? ==> B.ValidBatch(B.JavaWires(read)) && message.value == B.EncodeBatch(B.JavaWires(read))
  {
    for index := 0 to |read|
      invariant forall i :: 0 <= i < index ==> read[i].format == format && read[i].sequence == B.LongAdd(firstSequence, i)
    {
      var sequence := B.LongAdd(firstSequence, index);
      if read[index].format != format || read[index].sequence != sequence {
        return None;
      }
    }
    message := B.JavaEncodeBatch(read);
    ghost var ws := B.JavaWires(read);
    if B.ValidBatch(ws) {
      forall i | 0 <= i < |read| ensures Playable(format, read[i]) && read[i].sequence == firstSequence + i {
        assert C.ValidWire(ws[i]) && ws[i].sequence == ws[0].sequence + i;
      }
    }
  }

  /** The whole uplink: every message the handset sends is accepted by the daemon's
      decoder, which gets the microphone's frames. */
  method UplinkToDaemon(format: int, firstSequence: I64, read: seq<Packet>)
      returns (message: Option<Bytes>, frames: Option<seq<C.AudioFrame>>)
    requires |read| == C.MAX_BATCH_FRAMES
    ensures message.Some? <==>
              && firstSequence >= 0
              && forall i :: 0 <= i < |read| ==> Playable(format, read[i]) && read[i].sequence == firstSequence + i
    ensures frames.Some? <==> message.Some?
    ensures frames.Some? ==>
              && |frames.value| == |read|
              && forall i :: 0 <= i < |read| ==>
                   && frames.value[i].Valid() && C.FormatCode(frames.value[i].format) == format
                   && frames.value[i].sequence == firstSequence + i && frames.value[i].samples == read[i].samples
  {
    message := CaptureBatch(format, firstSequence, read);
    if message.None? {
      return None, None;
    }
    ghost var ws;
    frames, ws := B.RustDecodeBatch(message.value);
    if frames.Some? {
      B.EncodeBatchInjective(ws, B.JavaWires(read));
    }
  }

  // ---- whole runs ----

  datatype Event = Insert(packet: Packet) | Playout(arrivals: Arrivals)

  function Step(format: int, s: Pump, e: Event): Outcome
    requires C.KnownFormat(format)
  {
    match e
    case Insert(p) => Outcome(s.(jitter := J.Insert(CONFIG, s.jitter, p)), None)
    case Playout(a) => PlayoutOnce(format, s, a)
  }

  ghost function Run(format: int, events: seq<Event>): Pump
    requires C.KnownFormat(format)
  {
    if events == [] then INITIAL
    else Step(format, Run(format, events[..|events| - 1]), events[|events| - 1]).state
  }

  lemma {:induction false} RunSnoc(format: int, init: seq<Event>, e: Event)
    requires C.KnownFormat(format)
    ensures Run(format, init + [e]) == Step(format, Run(format, init), e).state
  {
    assert (init + [e])[..|init|] == init;
  }

  /** The sequences of the real frames written, in order. */
  ghost function RealWrites(format: int, events: seq<Event>): seq<int>
    requires C.KnownFormat(format)
  {
    if events == [] then []
    else
      var init := events[..|events| - 1];
      AppendReal(RealWrites(format, init), Step(format, Run(format, init), events[|events| - 1]).written)
  }

  ghost function AppendReal(out: seq<int>, w: Option<Written>): seq<int> {
    if w.Some? && w.value.Real? then out + [w.value.packet.sequence] else out
  }

  ghost function ConcealedWrites(format: int, events: seq<Event>): nat
    requires C.KnownFormat(format)
  {
    if events == [] then 0
    else
      var init := events[..|events| - 1];
      var w := Step(format, Run(format, init), events[|events| - 1]).written;
      ConcealedWrites(format, init) + (if w.Some? && w.value.Concealed? then 1 else 0)
  }

  /** The trim limiter: each trim after the first costs 32 real frames. It survives the
      wrap-around of the counter, which only delays the next trim. */
  ghost predicate TrimBudget(s: Pump, written: nat) {
    s.trimmed > 0 ==> written >= MIN_FRAMES_BETWEEN_TRIMS * (s.trimmed - 1) + 1 + Max(0, s.sinceTrim)
  }

  ghost predicate Balanced(s: Pump, out: seq<int>) {
    && s.jitter.books.emitted == |out| + s.trimmed
    && TrimBudget(s, |out|)
    && J.Accounted(CONFIG, s.jitter)
    && J.Ordered(s.jitter, out)
  }

  lemma {:induction false} InsertAllKeeps(j: J.Jitter, out: seq<int>, ps: seq<Packet>)
    requires J.Accounted(CONFIG, j) && J.Ordered(j, out)
    ensures var k := InsertAll(j, ps);
            && J.Accounted(CONFIG, k) && J.Ordered(k, out)
            && k.books.emitted == j.books.emitted && k.started == j.started
  {
    if ps != [] {
      InsertAllKeeps(j, out, ps[..|ps| - 1]);
      var mid, p := InsertAll(j, ps[..|ps| - 1]), ps[|ps| - 1];
      J.StepAccounted(CONFIG, mid, J.Arrive(p));
      J.OrderedInsert(CONFIG, mid, out, p);
    }
  }

  lemma {:induction false} TickKeeps(j: J.Jitter, out: seq<int>)
    requires J.Accounted(CONFIG, j) && J.Ordered(j, out)
    ensures var (k, p) := J.Tick(CONFIG, j);
            && J.Accounted(CONFIG, k)
            && J.Ordered(k, if p.Some? then out + [p.value.sequence] else out)
            && k.books.emitted == j.books.emitted + (if p.Some? then 1 else 0)
            && (j.started || p.Some? ==> k.started)
            && (k.started && !j.started ==> p.Some?)
  {
    J.StepAccounted(CONFIG, j, J.Playout);
    J.StepOrdered(CONFIG, j, out, J.Playout);
    if Position(CONFIG, j).Some? {
      J.PositionIsPlayable(CONFIG, j, out);
    }
  }

  lemma {:induction false} OrderedWithoutSkipped(j: J.Jitter, out: seq<int>, skipped: int, last: int)
    requires J.Ordered(j, out + [skipped] + [last])
    ensures J.Ordered(j, out + [last])
  {
    var all := out + [skipped] + [last];
    assert all[|out|] == skipped && all[|out| + 1] == last;
    assert forall i :: 0 <= i < |out| ==> all[i] == out[i];
  }

  /** The buffer's part: what is played extends the real frames in order, a trim
      skips one emission, and playout has begun exactly when something is played. */
  lemma {:induction false} ChooseKeeps(jitter: J.Jitter, sinceTrim: int, out: seq<int>, a: Arrivals)
    requires J.Accounted(CONFIG, jitter) && J.Ordered(jitter, out)
    ensures var c := Choose(jitter, sinceTrim, a);
            && J.Accounted(CONFIG, c.jitter)
            && J.Ordered(c.jitter, if c.action.Play? then out + [c.action.packet.sequence] else out)
            && c.jitter.books.emitted == jitter.books.emitted
               + (if !c.action.Play? then 0 else if c.action.trim then 2 else 1)
            && (c.action.Play? && c.action.trim ==> IntIncrement(sinceTrim) >= MIN_FRAMES_BETWEEN_TRIMS)
            && (c.action.Silence? <==> !c.jitter.started)
            && (jitter.started ==> c.jitter.started)
  {
    var (ticked, packet) := J.Tick(CONFIG, jitter);
    TickKeeps(jitter, out);
    var out1 := if packet.Some? then out + [packet.value.sequence] else out;
    InsertAllKeeps(ticked, out1, a.afterTick);
    var j1 := InsertAll(ticked, a.afterTick);
    InsertAllKeeps(j1, out1, a.beforeSecond);
    var j2 := InsertAll(j1, a.beforeSecond);
    if packet.Some? && |j1.frames| > TRIM_HIGH_WATER && IntIncrement(sinceTrim) >= MIN_FRAMES_BETWEEN_TRIMS {
      TickKeeps(j2, out1);
      var (j3, newer) := J.Tick(CONFIG, j2);
      if newer.Some? {
        OrderedWithoutSkipped(j3, out, packet.value.sequence, newer.value.sequence);
      }
    }
  }

  /** The rendering part: exactly the frames that were chosen are written. */
  lemma {:induction false} RenderKeeps(format: int, s: Pump, c: Choice, a: Arrivals)
    requires C.KnownFormat(format)
    ensures var o := Render(format, s, c, a);
            && o.state.jitter == InsertAll(c.jitter, a.beforeDepth)
            && (c.action.Silence? ==> o.written.None? && o.state.trimmed == s.trimmed && o.state.sinceTrim == s.sinceTrim
                                      && o.state.concealed == s.concealed)
            && (c.action.Missing? ==> o.written.Some? && o.written.value.Concealed? && o.state.trimmed == s.trimmed
                                      && o.state.sinceTrim == s.sinceTrim && o.state.concealed == s.concealed + 1)
            && (c.action.Play? ==>
                  && o.written.Some? && o.written.value.Real? && o.written.value.packet.sequence == c.action.packet.sequence
                  && o.state.trimmed == s.trimmed + (if c.action.trim then 1 else 0) && o.state.concealed == s.concealed
                  && o.state.sinceTrim == if c.action.trim then 0 else IntIncrement(s.sinceTrim))
  {
  }

  /** One `playoutOnce`, whatever arrives in between: it writes one frame exactly when
      playout has begun by its tick, and it keeps the books balanced. */
  lemma {:induction false} PlayoutKeeps(format: int, s: Pump, out: seq<int>, a: Arrivals)
    requires C.KnownFormat(format) && Balanced(s, out)
    ensures var o := PlayoutOnce(format, s, a);
            && Balanced(o.state, AppendReal(out, o.written))
            && (o.written.Some? <==> o.state.jitter.started)
            && (s.jitter.started ==> o.state.jitter.started)
  {
    var c := Choose(s.jitter, s.sinceTrim, a);
    ChooseKeeps(s.jitter, s.sinceTrim, out, a);
    RenderKeeps(format, s, c, a);
    InsertAllKeeps(c.jitter, if c.action.Play? then out + [c.action.packet.sequence] else out, a.beforeDepth);
  }

  lemma {:induction false} RunBalanced(format: int, events: seq<Event>)
    requires C.KnownFormat(format)
    ensures Balanced(Run(format, events), RealWrites(format, events))
  {
    if events != [] {
      var init, e := events[..|events| - 1], events[|events| - 1];
      RunBalanced(format, init);
      var s, out := Run(format, init), RealWrites(format, init);
      match e
      case Insert(p) => InsertAllKeeps(s.jitter, out, [p]); assert [p][..0] == [];
      case Playout(a) => PlayoutKeeps(format, s, out, a);
    } else {
      assert J.Accounted(CONFIG, J.EMPTY) && J.Ordered(J.EMPTY, []);
    }
  }

  /** Playout accounting over whole runs, with inserts interleaved anywhere: frames the
      jitter buffer emitted are the real frames written plus those trimmed, at most one
      frame in 32 is trimmed, real frames are written in strictly increasing sequence,
      and the concealment counter counts the concealed frames. */
  lemma {:induction false} PlayoutAccounting(format: int, events: seq<Event>)
    requires C.KnownFormat(format)
    ensures var s, out := Run(format, events), RealWrites(format, events);
            && s.jitter.books.emitted == |out| + s.trimmed
            && s.trimmed <= (|out| + 31) / 32
            && Increasing(out)
            && s.concealed == ConcealedWrites(format, events)
  {
    RunBalanced(format, events);
    ConcealedCounted(format, events);
  }

  lemma {:induction false} ConcealedCounted(format: int, events: seq<Event>)
    requires C.KnownFormat(format)
    ensures Run(format, events).concealed == ConcealedWrites(format, events)
  {
    if events != [] {
      var init, e := events[..|events| - 1], events[|events| - 1];
      ConcealedCounted(format, init);
      var s := Run(format, init);
      if e.Playout? {
        RenderKeeps(format, s, Choose(s.jitter, s.sinceTrim, e.arrivals), e.arrivals);
      }
    }
  }

  /** In every run, an interval writes exactly one frame if playout has begun by its tick
      and none otherwise; once playout has begun, every later interval writes one. */
  lemma {:induction false} OneFramePerInterval(format: int, events: seq<Event>, more: seq<Event>, a: Arrivals)
    requires C.KnownFormat(format)
    ensures var s := Run(format, events + more);
            && (PlayoutOnce(format, s, a).written.Some?
                <==> Run(format, events + more + [Playout(a)]).jitter.started)
            && (Run(format, events).jitter.started ==> PlayoutOnce(format, s, a).written.Some?)
  {
    WritesWhenStarted(format, events + more, a);
    if Run(format, events).jitter.started {
      StartedStays(format, events, more);
    }
  }

  lemma {:induction false} WritesWhenStarted(format: int, events: seq<Event>, a: Arrivals)
    requires C.KnownFormat(format)
    ensures var s := Run(format, events);
            && (PlayoutOnce(format, s, a).written.Some? <==> Run(format, events + [Playout(a)]).jitter.started)
            && (s.jitter.started ==> PlayoutOnce(format, s, a).written.Some?)
  {
    RunBalanced(format, events);
    PlayoutKeeps(format, Run(format, events), RealWrites(format, events), a);
    RunSnoc(format, events, Playout(a));
  }

  lemma {:induction false} StartedStep(format: int, s: Pump, out: seq<int>, e: Event)
    requires C.KnownFormat(format) && Balanced(s, out) && s.jitter.started
    ensures Step(format, s, e).state.jitter.started
  {
    if e.Playout? {
      PlayoutKeeps(format, s, out, e.arrivals);
    }
  }

  lemma {:induction false} StartedStays(format: int, events: seq<Event>, more: seq<Event>)
    requires C.KnownFormat(format) && Run(format, events).jitter.started
    ensures Run(format, events + more).jitter.started
  {
    if more == [] {
      assert events + more == events;
    } else {
      var init, e := more[..|more| - 1], more[|more| - 1];
      StartedStays(format, events, init);
      assert events + more == events + init + [e];
      RunBalanced(format, events + init);
      StartedStep(format, Run(format, events + init), RealWrites(format, events + init), e);
      RunSnoc(format, events + init, e);
    }
  }

  /** Pacing stays a multiple of its step, within its two limits, in every run. */
  lemma {:induction false} PacingBounded(format: int, events: seq<Event>)
    requires C.KnownFormat(format)
    ensures var p := Run(format, events).pacing;
            MAX_FAST_PACING <= p <= MAX_SLOW_PACING && p % PACING_STEP == 0
  {
    if events != [] {
      var init, e := events[..|events| - 1], events[|events| - 1];
      PacingBounded(format, init);
      var s := Run(format, init);
      if e.Playout? {
        RenderPacing(format, s, Choose(s.jitter, s.sinceTrim, e.arrivals), e.arrivals);
      }
    }
  }

  lemma {:induction false} RenderPacing(format: int, s: Pump, c: Choice, a: Arrivals)
    requires C.KnownFormat(format)
    requires MAX_FAST_PACING <= s.pacing <= MAX_SLOW_PACING && s.pacing % PACING_STEP == 0
    ensures var p := Render(format, s, c, a).state.pacing;
            MAX_FAST_PACING <= p <= MAX_SLOW_PACING && p % PACING_STEP == 0
  {
    var k := s.pacing / PACING_STEP;
    assert s.pacing == k * PACING_STEP;
    PacedMultiple(s.pacing, |InsertAll(c.jitter, a.beforeDepth).frames|);
  }

  lemma {:induction false} PacedMultiple(p: int, depth: nat)
    requires MAX_FAST_PACING <= p <= MAX_SLOW_PACING && p % PACING_STEP == 0
    ensures MAX_FAST_PACING <= PacedReal(p, depth) <= MAX_SLOW_PACING && PacedReal(p, depth) % PACING_STEP == 0
    ensures MAX_FAST_PACING <= PacedConcealed(p) <= MAX_SLOW_PACING && PacedConcealed(p) % PACING_STEP == 0
  {
  }
}

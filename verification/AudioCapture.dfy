/** Capture to batch: raw PCM becomes numbered frames whatever the read sizes, the
    frames pass through a drop-oldest queue, and up to four of them at a time become
    one downlink message. */
module AudioCapture {
  import opened Common
  import C = AudioCodec
  import B = AudioBatch

  type Frame = C.AudioFrame

  // ---- reading frames from a byte stream ----

  /** How the next read behaves: it may deliver fewer bytes than asked for, be
      interrupted, or fail. */
  datatype ReadBehaviour = Deliver(most: nat) | Interrupt | Fail

  datatype ReadResult = Got(bytes: Bytes) | Interrupted | Failed

  /** A byte stream under an arbitrary schedule of short reads. */
  class PcmSource {
    const data: Bytes
    var position: nat
    var schedule: seq<ReadBehaviour>

    ghost predicate Valid()
      reads this
    {
      position <= |data|
    }

    constructor (data: Bytes, schedule: seq<ReadBehaviour>)
      ensures Valid() && this.data == data && position == 0 && this.schedule == schedule
    {
      this.data, position, this.schedule := data, 0, schedule;
    }

    /** At least one byte unless the stream has ended, at most `want`. */
    method Read(want: nat) returns (r: ReadResult)
      requires Valid() && want > 0
      modifies this
      ensures Valid()
      ensures old(schedule) == [] ==> r.Got? && schedule == []
      ensures old(schedule) != [] ==> schedule == old(schedule)[1..]
      ensures !r.Got? ==> position == old(position)
      ensures r.Failed? <==> old(schedule) != [] && old(schedule)[0].Fail?
      ensures r.Got? ==>
                && |r.bytes| <= want && position == old(position) + |r.bytes|
                && r.bytes == data[old(position)..position]
                && (r.bytes == [] <==> old(position) == |data|)
    {
      var most := want;
      if schedule != [] {
        var next := schedule[0];
        schedule := schedule[1..];
        match next
        case Interrupt => return Interrupted;
        case Fail => return Failed;
        case Deliver(n) => most := Max(1, Min(n, want));
      }
      var count := Min(most, |data| - position);
      var start := position;
      position := position + count;
      return Got(data[start..position]);
    }
  }

  predicate HfpFormat(format: C.AudioFormat) {
    format == C.NARROWBAND || format == C.WIDEBAND
  }

  /** The formats that can be read and written: one channel of 60 samples at 8 kHz or of
      120 at 16 kHz. */
  lemma {:induction false} HfpFormats(format: C.AudioFormat)
    ensures HfpFormat(format) <==> format == C.AudioFormat(8000, 1, 60) || format == C.AudioFormat(16000, 1, 120)
    ensures HfpFormat(format) ==> FrameBytes(format) == if format.sampleRate == 8000 then 120 else 240
  {
  }

  function FrameBytes(format: C.AudioFormat): nat
    requires HfpFormat(format)
  {
    2 * format.samplesPerChannel
  }

  datatype PcmError = TruncatedFrame | ReadFailed | SequenceExhausted

  datatype PcmResult = EndOfStream | ReadFrame(frame: Frame) | Error(error: PcmError)

  /** The samples of chunk `i` of a stream. */
  ghost function Chunk(data: Bytes, format: C.AudioFormat, i: nat): seq<I16>
    requires HfpFormat(format) && (i + 1) * FrameBytes(format) <= |data|
  {
    C.DecodeSamples(data[i * FrameBytes(format)..(i + 1) * FrameBytes(format)])
  }

  class PcmFrameReader {
    const source: PcmSource
    const format: C.AudioFormat
    var next: U64

    ghost predicate Valid()
      reads this, source
    {
      HfpFormat(format) && source.Valid()
    }

    /** The stream has been read up to a frame boundary: the next frame's number is
        the number of frames before it. */
    ghost predicate Aligned()
      reads this, source
      requires HfpFormat(format)
    {
      source.position == next * FrameBytes(format)
    }

    constructor (source: PcmSource, format: C.AudioFormat)
      requires source.Valid() && source.position == 0 && HfpFormat(format)
      ensures Valid() && Aligned() && next == 0 && this.source == source && this.format == format
    {
      this.source, this.format, next := source, format, 0;
    }

    /** Fills a buffer of `n` bytes; `filled < n` only at the end of the stream. */
    method Fill(n: nat) returns (bytes: array<Byte>, filled: nat, failed: bool)
      requires Valid()
      modifies source
      ensures Valid() && fresh(bytes) && bytes.Length == n && filled <= n
      ensures source.position == old(source.position) + filled
      ensures bytes[..filled] == source.data[old(source.position)..source.position]
      ensures !failed && filled < n ==> source.position == |source.data|
      ensures failed ==> Fail in old(source.schedule)
    {
      bytes := new Byte[n](_ => 0);
      filled, failed := 0, false;
      ghost var start, schedule := source.position, source.schedule;
      while filled < n
        invariant fresh(bytes) && bytes.Length == n && filled <= n && source.Valid()
        invariant source.position == start + filled
        invariant bytes[..filled] == source.data[start..source.position]
        invariant forall b :: b in source.schedule ==> b in schedule
        decreases |source.schedule|, n - filled
      {
        var r := source.Read(n - filled);
        match r
        case Failed =>
          failed := true;
          return;
        case Interrupted =>
        case Got(got) =>
          if got == [] {
            return;
          }
          StoreAt(bytes, filled, got);
          assert source.data[start..source.position] == source.data[start..start + filled] + got;
          filled := filled + |got|;
      }
    }

    /** `read_frame`. */
    method Read() returns (r: PcmResult)
      requires Valid()
      modifies this, source
      ensures Valid()
      ensures r.ReadFrame? ==>
                && r.frame.Valid() && r.frame.sequence == old(next) && r.frame.format == format
                && next == old(next) + 1
                && source.position == old(source.position) + FrameBytes(format)
                && r.frame.samples == C.DecodeSamples(source.data[old(source.position)..source.position])
      ensures r.EndOfStream? ==> old(source.position) == |source.data| && source.position == old(source.position) && next == old(next)
      ensures r == Error(TruncatedFrame) ==> 0 < |source.data| - old(source.position) < FrameBytes(format)
      ensures r == Error(SequenceExhausted) ==> old(next) == U64_MAX
      ensures r.Error? ==> next == old(next)
      ensures r == Error(ReadFailed) ==> Fail in old(source.schedule)
    {
      var sampleCount := format.samplesPerChannel;
      var bytes, filled, failed := Fill(2 * sampleCount);
      if failed {
        return Error(ReadFailed);
      }
      if filled < 2 * sampleCount {
        return if filled == 0 then EndOfStream else Error(TruncatedFrame);
      }
      assert bytes[..filled] == bytes[..];
      var samples := C.DecodeSamples(bytes[..]);
      var sequence := next;
      if next == U64_MAX {
        return Error(SequenceExhausted);
      }
      next := next + 1;
      return ReadFrame(C.AudioFrame(sequence, format, samples));
    }

    /** Under any schedule of short reads and interruptions, the frames read are the
        stream's consecutive chunks, numbered from zero. */
    method ReadNumbered() returns (r: PcmResult)
      requires Valid() && Aligned()
      modifies this, source
      ensures Valid()
      ensures r.ReadFrame? ==>
                && Aligned() && next == old(next) + 1 && r.frame.sequence == old(next)
                && (r.frame.sequence + 1) * FrameBytes(format) <= |source.data|
                && r.frame.samples == Chunk(source.data, format, r.frame.sequence)
      ensures r.EndOfStream? ==> Aligned() && next * FrameBytes(format) == |source.data| && next == old(next)
      ensures r.ReadFrame? ==> r.frame.Valid() && r.frame.format == format
    {
      r := Read();
    }
  }

  /** `PcmFrameReader::new`: only the two HFP formats can be read. */
  method NewPcmFrameReader(source: PcmSource, format: C.AudioFormat) returns (r: Option<PcmFrameReader>)
    requires source.Valid() && source.position == 0
    ensures r.Some? <==> HfpFormat(format)
    ensures r.Some? ==> fresh(r.value) && r.value.source == source && r.value.format == format
                        && r.value.Valid() && r.value.Aligned() && r.value.next == 0
  {
    if !HfpFormat(format) {
      return None;
    }
    var reader := new PcmFrameReader(source, format);
    return Some(reader);
  }

  // ---- writing frames to a byte stream ----

  /** `write_frame`: the bytes it writes, or a format mismatch. */
  method WriteFrame(format: C.AudioFormat, frame: Frame) returns (r: Option<Bytes>)
    ensures r == if frame.format == format then Some(C.EncodeSamples(frame.samples)) else None
  {
    if frame.format != format {
      return None;
    }
    var bytes: Bytes := [];
    var samples := frame.samples;
    for i := 0 to |samples|
      invariant bytes == C.EncodeSamples(samples[..i])
    {
      C.SamplesSnoc(samples[..i], samples[i]);
      assert samples[..i + 1] == samples[..i] + [samples[i]];
      bytes := bytes + SampleBytes(samples[i]);
    }
    assert samples[..|samples|] == samples;
    return Some(bytes);
  }

  /** What a writer puts on the stream for these frames. */
  ghost function StreamOf(frames: seq<Frame>): Bytes {
    if frames == [] then [] else StreamOf(frames[..|frames| - 1]) + C.EncodeSamples(frames[|frames| - 1].samples)
  }

  ghost predicate FramesOf(frames: seq<Frame>, format: C.AudioFormat) {
    forall i :: 0 <= i < |frames| ==> frames[i].Valid() && frames[i].format == format
  }

  lemma {:induction false} StreamSize(frames: seq<Frame>, format: C.AudioFormat)
    requires HfpFormat(format) && FramesOf(frames, format)
    ensures |StreamOf(frames)| == |frames| * FrameBytes(format)
  {
    if frames != [] {
      var k, n := |frames| - 1, FrameBytes(format);
      StreamSize(frames[..k], format);
      assert frames[k].Valid() && |frames[k].samples| == format.samplesPerChannel;
      assert (k + 1) * n == k * n + n;
    }
  }

  lemma {:induction false} StreamPrefix(frames: seq<Frame>, k: nat)
    requires k <= |frames|
    ensures StreamOf(frames[..k]) <= StreamOf(frames)
  {
    if k == |frames| {
      assert frames[..k] == frames;
    } else {
      var init := frames[..|frames| - 1];
      StreamPrefix(init, k);
      assert init[..k] == frames[..k];
    }
  }

  lemma {:induction false} StreamSnoc(frames: seq<Frame>, f: Frame)
    ensures StreamOf(frames + [f]) == StreamOf(frames) + C.EncodeSamples(f.samples)
  {
    assert (frames + [f])[..|frames|] == frames;
  }

  /** The bytes of frame `i` lie where the stream of the frames before it ends. */
  lemma {:induction false} StreamPart(frames: seq<Frame>, i: nat, lo: nat, hi: nat)
    requires i < |frames| && lo == |StreamOf(frames[..i])| && hi == |StreamOf(frames[..i + 1])|
    ensures lo <= hi <= |StreamOf(frames)| && StreamOf(frames)[lo..hi] == C.EncodeSamples(frames[i].samples)
  {
    var front, bytes := StreamOf(frames[..i]), C.EncodeSamples(frames[i].samples);
    StreamSnoc(frames[..i], frames[i]);
    assert frames[..i + 1] == frames[..i] + [frames[i]];
    StreamPrefix(frames, i + 1);
    assert (front + bytes)[lo..hi] == bytes;
    assert StreamOf(frames)[..hi] == front + bytes;
    assert StreamOf(frames)[lo..hi] == StreamOf(frames)[..hi][lo..hi];
  }

  /** Chunk `i` of what was written holds the samples of frame `i`: a reader of the
      stream gets the written audio back, numbered by position. */
  lemma {:induction false} WrittenIsRead(frames: seq<Frame>, format: C.AudioFormat, i: nat)
    requires HfpFormat(format) && FramesOf(frames, format) && i < |frames|
    ensures (i + 1) * FrameBytes(format) <= |StreamOf(frames)|
    ensures Chunk(StreamOf(frames), format, i) == frames[i].samples
  {
    StreamSize(frames[..i], format);
    StreamSize(frames[..i + 1], format);
    StreamPart(frames, i, i * FrameBytes(format), (i + 1) * FrameBytes(format));
    C.DecodeEncodeSamples(frames[i].samples);
  }

  // ---- the drop-oldest queue ----

  /** The queue with true counts. */
  datatype Queue = Queue(frames: seq<Frame>, enqueued: nat, dequeued: nat, dropped: nat)

  const EMPTY := Queue([], 0, 0, 0)

  function Push(capacity: nat, q: Queue, f: Frame): Queue {
    if |q.frames| == capacity && capacity > 0
    then Queue(q.frames[1..] + [f], q.enqueued + 1, q.dequeued, q.dropped + 1)
    else Queue(q.frames + [f], q.enqueued + 1, q.dequeued, q.dropped)
  }

  function Pop(q: Queue): Queue {
    if q.frames == [] then q else q.(frames := q.frames[1..], dequeued := q.dequeued + 1)
  }

  datatype QueueSummary = QueueSummary(depth: nat, enqueued: U64, dequeued: U64, dropped: U64)

  function Summarize(q: Queue): QueueSummary {
    QueueSummary(|q.frames|, Saturate(q.enqueued), Saturate(q.dequeued), Saturate(q.dropped))
  }

  class BoundedAudioQueue {
    const capacity: nat
    var frames: seq<Frame>
    var summary: QueueSummary
    ghost var model: Queue

    ghost predicate Valid()
      reads this
    {
      capacity > 0 && frames == model.frames && summary == Summarize(model)
    }

    constructor (capacity: nat)
      requires capacity > 0
      ensures Valid() && model == EMPTY && this.capacity == capacity
    {
      this.capacity := capacity;
      frames, summary, model := [], QueueSummary(0, 0, 0, 0), EMPTY;
    }

    method PushFrame(f: Frame)
      requires Valid()
      modifies this
      ensures Valid() && model == Push(capacity, old(model), f)
    {
      model := Push(capacity, model, f);
      if |frames| == capacity {
        frames := frames[1..];
        summary := summary.(dropped := SaturatingIncrement(summary.dropped));
      }
      frames := frames + [f];
      summary := summary.(enqueued := SaturatingIncrement(summary.enqueued), depth := |frames|);
    }

    method PopFrame() returns (r: Option<Frame>)
      requires Valid()
      modifies this
      ensures Valid() && model == Pop(old(model))
      ensures r == if old(model.frames) == [] then None else Some(old(model.frames[0]))
    {
      model := Pop(model);
      if frames == [] {
        return None;
      }
      r := Some(frames[0]);
      frames := frames[1..];
      summary := summary.(dequeued := SaturatingIncrement(summary.dequeued), depth := |frames|);
    }

    method Reset()
      requires Valid()
      modifies this
      ensures Valid() && model == EMPTY
    {
      frames, summary, model := [], QueueSummary(0, 0, 0, 0), EMPTY;
    }
  }

  /** `BoundedAudioQueue::new`: a queue needs room for a frame. */
  method NewAudioQueue(capacity: nat) returns (r: Option<BoundedAudioQueue>)
    ensures r.Some? <==> capacity > 0
    ensures r.Some? ==> fresh(r.value) && r.value.Valid() && r.value.model == EMPTY && r.value.capacity == capacity
  {
    if capacity == 0 {
      return None;
    }
    var queue := new BoundedAudioQueue(capacity);
    return Some(queue);
  }

  datatype QueueEvent = PushEvent(frame: Frame) | PopEvent

  function QueueStep(capacity: nat, q: Queue, e: QueueEvent): Queue {
    if e.PushEvent? then Push(capacity, q, e.frame) else Pop(q)
  }

  ghost function QueueRun(capacity: nat, events: seq<QueueEvent>): Queue {
    if events == [] then EMPTY
    else QueueStep(capacity, QueueRun(capacity, events[..|events| - 1]), events[|events| - 1])
  }

  ghost function Pushes(events: seq<QueueEvent>): seq<Frame> {
    if events == [] then []
    else
      var e := events[|events| - 1];
      Pushes(events[..|events| - 1]) + (if e.PushEvent? then [e.frame] else [])
  }

  /** In every run the queue holds exactly the frames pushed last, in order, and every
      push is accounted for as popped, dropped or still held. */
  lemma {:induction false} QueueHoldsSuffix(capacity: nat, events: seq<QueueEvent>)
    requires capacity > 0
    ensures var q, all := QueueRun(capacity, events), Pushes(events);
            && q.enqueued == |all| == q.dequeued + q.dropped + |q.frames|
            && |q.frames| <= capacity
            && q.frames == all[q.dequeued + q.dropped..]
  {
    if events != [] {
      QueueHoldsSuffix(capacity, events[..|events| - 1]);
    }
  }

  // ---- one downlink message ----

  /** A popped frame and how many frames the queue had dropped by then. */
  datatype Taken = Taken(frame: Frame, drops: nat)

  /** `done` once a pop has found the queue empty. */
  datatype TakeResult = TakeResult(queue: Queue, taken: seq<Taken>, done: bool)

  function PushAll(capacity: nat, q: Queue, fs: seq<Frame>): Queue {
    if fs == [] then q else Push(capacity, PushAll(capacity, q, fs[..|fs| - 1]), fs[|fs| - 1])
  }

  function TakeOne(capacity: nat, t: TakeResult, pushed: seq<Frame>): TakeResult {
    if t.done then t
    else
      var q := PushAll(capacity, t.queue, pushed);
      if q.frames == [] then TakeResult(q, t.taken, true)
      else TakeResult(Pop(q), t.taken + [Taken(q.frames[0], q.dropped)], false)
  }

  /** One pop per element of `between`, stopping when the queue is empty; the capture
      thread pushes `between[i]` before pop `i`. */
  function Take(capacity: nat, q: Queue, between: seq<seq<Frame>>): TakeResult {
    if between == [] then TakeResult(q, [], false)
    else TakeOne(capacity, Take(capacity, q, between[..|between| - 1]), between[|between| - 1])
  }

  lemma {:induction false} DoneStaysDone(capacity: nat, q: Queue, between: seq<seq<Frame>>, i: nat)
    requires i <= |between| && Take(capacity, q, between[..i]).done
    ensures Take(capacity, q, between) == Take(capacity, q, between[..i])
  {
    if i == |between| {
      assert between[..i] == between;
    } else {
      var init := between[..|between| - 1];
      assert init[..i] == between[..i];
      DoneStaysDone(capacity, q, init, i);
    }
  }

  ghost function WireOf(f: Frame, capture: U64): C.Wire {
    C.ToWire(C.AudioPacket(capture, f))
  }

  ghost function Wires(taken: seq<Taken>, capture: U64): (ws: seq<C.Wire>)
    ensures |ws| == |taken|
    ensures forall i :: 0 <= i < |ws| ==> ws[i] == WireOf(taken[i].frame, capture)
  {
    seq(|taken|, i requires 0 <= i < |taken| => WireOf(taken[i].frame, capture))
  }

  predicate Encodable(f: Frame) {
    f.sequence <= I64_MAX && HfpFormat(f.format)
  }

  datatype BatchResult = NoFrames | Message(bytes: Bytes) | InvalidPacket

  ghost predicate AllFramesValid(fs: seq<Frame>) {
    forall i :: 0 <= i < |fs| ==> fs[i].Valid()
  }

  /** The capture thread's pushes at one point. */
  method Capture(queue: BoundedAudioQueue, fs: seq<Frame>)
    requires queue.Valid()
    modifies queue
    ensures queue.Valid() && queue.model == PushAll(queue.capacity, old(queue.model), fs)
  {
    for i := 0 to |fs|
      invariant queue.Valid() && queue.model == PushAll(queue.capacity, old(queue.model), fs[..i])
    {
      assert fs[..i + 1][..i] == fs[..i];
      queue.PushFrame(fs[i]);
    }
    assert fs[..|fs|] == fs;
  }

  lemma {:induction false} WiresSnoc(taken: seq<Taken>, t: Taken, capture: U64)
    requires B.AllValid(Wires(taken, capture)) && C.ValidWire(WireOf(t.frame, capture))
    ensures B.AllValid(Wires(taken + [t], capture))
    ensures B.EncodeBatch(Wires(taken + [t], capture))
         == B.EncodeBatch(Wires(taken, capture)) + C.EncodeWire(WireOf(t.frame, capture))
  {
    assert Wires(taken + [t], capture) == Wires(taken, capture) + [WireOf(t.frame, capture)];
    B.BatchSnoc(Wires(taken, capture), WireOf(t.frame, capture));
  }

  datatype PopResult = QueueEmpty | Encoded(bytes: Bytes) | NotEncodable

  /** One round of the loop: the capture thread's pushes, a pop, the frame's packet. */
  method PopEncoded(queue: BoundedAudioQueue, capture: U64, pushed: seq<Frame>, ghost t: TakeResult)
      returns (r: PopResult, ghost next: TakeResult)
    requires queue.Valid() && !t.done && queue.model == t.queue
    requires AllFramesValid(t.queue.frames) && AllFramesValid(pushed)
    modifies queue
    ensures queue.Valid() && next == TakeOne(queue.capacity, t, pushed) && queue.model == next.queue
    ensures r.QueueEmpty? <==> next.done
    ensures !next.done ==>
              && |next.taken| == |t.taken| + 1
              && var last := next.taken[|t.taken|];
                 && next.taken == t.taken + [last] && (r.Encoded? <==> Encodable(last.frame))
                 && (r.Encoded? ==> C.ValidWire(WireOf(last.frame, capture)) && r.bytes == C.EncodeWire(WireOf(last.frame, capture)))
  {
    next := TakeOne(queue.capacity, t, pushed);
    PushAllFrom(queue.capacity, t.queue, pushed);
    Capture(queue, pushed);
    var frame := queue.PopFrame();
    if frame.None? {
      return QueueEmpty, next;
    }
    var encoded := C.RustEncode(C.AudioPacket(capture, frame.value));
    return if encoded.Ok? then Encoded(encoded.value) else NotEncodable, next;
  }

  lemma {:induction false} TakeSnoc(capacity: nat, q: Queue, between: seq<seq<Frame>>, i: nat)
    requires i < |between|
    ensures Take(capacity, q, between[..i + 1]) == TakeOne(capacity, Take(capacity, q, between[..i]), between[i])
  {
    assert between[..i + 1][..i] == between[..i];
  }

  /** The bytes so far are the packets of the frames taken so far. */
  ghost predicate BatchSoFar(taken: seq<Taken>, capture: U64, batch: Bytes) {
    && (taken == [] <==> batch == [])
    && B.AllValid(Wires(taken, capture)) && batch == B.EncodeBatch(Wires(taken, capture))
  }

  lemma {:induction false} BatchSoFarSnoc(taken: seq<Taken>, last: Taken, capture: U64, batch: Bytes, bytes: Bytes)
    requires BatchSoFar(taken, capture, batch)
    requires C.ValidWire(WireOf(last.frame, capture)) && bytes == C.EncodeWire(WireOf(last.frame, capture))
    ensures BatchSoFar(taken + [last], capture, batch + bytes)
  {
    WiresSnoc(taken, last, capture);
  }

  /** Round `i` of the loop: the capture thread's pushes, a pop, the packet appended. */
  method TakeRound(queue: BoundedAudioQueue, capture: U64, between: seq<seq<Frame>>, i: nat, batch: Bytes, ghost start: Queue)
      returns (r: PopResult, longer: Bytes)
    requires queue.Valid() && i < |between| && AllFramesValid(Pending(start, between))
    requires var t := Take(queue.capacity, start, between[..i]);
             !t.done && queue.model == t.queue && BatchSoFar(t.taken, capture, batch)
    modifies queue
    ensures queue.Valid()
    ensures var t := Take(queue.capacity, start, between[..i + 1]);
            && queue.model == t.queue && (r.QueueEmpty? <==> t.done)
            && (r.QueueEmpty? ==> BatchSoFar(t.taken, capture, batch))
            && (r.Encoded? ==> BatchSoFar(t.taken, capture, longer))
            && (r.NotEncodable? ==> t.taken != [] && !Encodable(t.taken[|t.taken| - 1].frame))
  {
    longer := batch;
    ghost var t := Take(queue.capacity, start, between[..i]);
    TakeSnoc(queue.capacity, start, between, i);
    TakenValid(queue.capacity, start, between, i);
    PartValid(start, between, i);
    ghost var next;
    r, next := PopEncoded(queue, capture, between[i], t);
    if r.Encoded? {
      BatchSoFarSnoc(t.taken, next.taken[|t.taken|], capture, batch, r.bytes);
      longer := batch + r.bytes;
    }
  }

  /** `take_downlink_batch`: up to four pops, each encoded and appended. A frame that
      cannot be encoded ends the call; it and those before it are gone. */
  method TakeDownlinkBatch(queue: BoundedAudioQueue, capture: U64, between: seq<seq<Frame>>)
      returns (r: BatchResult, ghost pops: nat)
    requires queue.Valid() && |between| == C.MAX_BATCH_FRAMES
    requires AllFramesValid(Pending(queue.model, between))
    modifies queue
    ensures queue.Valid() && pops <= |between|
    ensures var t := Take(queue.capacity, old(queue.model), between[..pops]);
            && queue.model == t.queue
            && (!r.InvalidPacket? ==> t == Take(queue.capacity, old(queue.model), between))
            && (r.NoFrames? <==> t.taken == [])
            && (r.InvalidPacket? ==> t.taken != [] && !Encodable(t.taken[|t.taken| - 1].frame))
            && (r.Message? ==> B.AllValid(Wires(t.taken, capture)) && r.bytes == B.EncodeBatch(Wires(t.taken, capture)))
  {
    var batch: Bytes := [];
    ghost var start := queue.model;
    pops := 0;
    for i := 0 to |between|
      invariant queue.Valid() && pops == i
      invariant var t := Take(queue.capacity, start, between[..i]);
                !t.done && queue.model == t.queue && BatchSoFar(t.taken, capture, batch)
    {
      var popped, longer := TakeRound(queue, capture, between, i, batch, start);
      pops := i + 1;
      if popped.QueueEmpty? {
        DoneStaysDone(queue.capacity, start, between, i + 1);
        break;
      }
      if popped.NotEncodable? {
        return InvalidPacket, pops;
      }
      batch := longer;
    }
    assert pops == |between| ==> between[..pops] == between;
    return if batch == [] then NoFrames else Message(batch), pops;
  }

  /** Every frame that could be popped. */
  ghost function Pending(q: Queue, between: seq<seq<Frame>>): seq<Frame> {
    q.frames + Flatten(between)
  }

  lemma {:induction false} PushAllFrom(capacity: nat, q: Queue, fs: seq<Frame>)
    requires AllFramesValid(q.frames) && AllFramesValid(fs)
    ensures AllFramesValid(PushAll(capacity, q, fs).frames)
  {
    if fs != [] {
      PushAllFrom(capacity, q, fs[..|fs| - 1]);
    }
  }

  lemma {:induction false} TakenValid(capacity: nat, q: Queue, between: seq<seq<Frame>>, i: nat)
    requires i <= |between| && AllFramesValid(Pending(q, between))
    ensures var t := Take(capacity, q, between[..i]);
            AllFramesValid(t.queue.frames) && forall k :: 0 <= k < |t.taken| ==> t.taken[k].frame.Valid()
  {
    if i == 0 {
      assert forall k :: 0 <= k < |q.frames| ==> q.frames[k] == Pending(q, between)[k];
    } else {
      TakenValid(capacity, q, between, i - 1);
      assert between[..i][..i - 1] == between[..i - 1];
      PartValid(q, between, i - 1);
      var t := Take(capacity, q, between[..i - 1]);
      PushAllFrom(capacity, t.queue, between[i - 1]);
    }
  }

  lemma {:induction false} ValidFlatten(between: seq<seq<Frame>>, i: nat)
    requires i < |between| && AllFramesValid(Flatten(between))
    ensures AllFramesValid(between[i])
  {
    var head, tail := between[0], between[1..];
    assert forall k :: 0 <= k < |head| ==> head[k] == Flatten(between)[k];
    if i > 0 {
      assert forall k :: 0 <= k < |Flatten(tail)| ==> Flatten(tail)[k] == Flatten(between)[|head| + k];
      ValidFlatten(tail, i - 1);
      assert tail[i - 1] == between[i];
    }
  }

  lemma {:induction false} PartValid(q: Queue, between: seq<seq<Frame>>, i: nat)
    requires i < |between| && AllFramesValid(Pending(q, between))
    ensures AllFramesValid(between[i])
  {
    var rest := Flatten(between);
    assert forall k :: 0 <= k < |rest| ==> rest[k] == Pending(q, between)[|q.frames| + k];
    ValidFlatten(between, i);
  }

  // ---- when a message is accepted on the other side ----

  /** Frames numbered consecutively from `first`, as the reader numbers them. */
  ghost predicate Numbered(fs: seq<Frame>, first: int, format: C.AudioFormat) {
    forall i :: 0 <= i < |fs| ==>
      fs[i].sequence == first + i && fs[i].format == format && fs[i].Valid()
  }

  ghost function Total(between: seq<seq<Frame>>): nat {
    if between == [] then 0 else Total(between[..|between| - 1]) + |between[|between| - 1]|
  }

  ghost predicate NumberedParts(between: seq<seq<Frame>>, first: int, format: C.AudioFormat) {
    between == [] ||
    var init := between[..|between| - 1];
    NumberedParts(init, first, format) && Numbered(between[|between| - 1], first + Total(init), format)
  }

  /** The queue holds the frames just before `next`. */
  ghost predicate QueueNumbered(q: Queue, next: int, format: C.AudioFormat) {
    Numbered(q.frames, next - |q.frames|, format)
  }

  lemma {:induction false} PushAllNumbered(capacity: nat, q: Queue, fs: seq<Frame>, next: int, format: C.AudioFormat)
    requires QueueNumbered(q, next, format) && Numbered(fs, next, format)
    ensures var q' := PushAll(capacity, q, fs);
            && QueueNumbered(q', next + |fs|, format) && q'.dropped >= q.dropped
            && next + |fs| - |q'.frames| == next - |q.frames| + q'.dropped - q.dropped
  {
    if fs != [] {
      PushAllNumbered(capacity, q, fs[..|fs| - 1], next, format);
    }
  }

  /** The k-th frame taken is the k-th after the queue's first, plus what was dropped
      meanwhile. */
  ghost predicate TakenNumbered(taken: seq<Taken>, first: int, dropped: nat, format: C.AudioFormat) {
    && (forall k :: 0 <= k < |taken| ==>
          && taken[k].frame.sequence == first + k + taken[k].drops - dropped
          && taken[k].frame.format == format && taken[k].frame.Valid() && taken[k].drops >= dropped)
    && (forall k, m :: 0 <= k < m < |taken| ==> taken[k].drops <= taken[m].drops)
  }

  /** The same, with where the queue stands after `count` pops. */
  ghost predicate TakeStands(t: TakeResult, first: int, dropped: nat, next: int, format: C.AudioFormat) {
    && TakenNumbered(t.taken, first, dropped, format)
    && (forall k :: 0 <= k < |t.taken| ==> t.taken[k].drops <= t.queue.dropped)
    && (!t.done ==>
          && QueueNumbered(t.queue, next, format) && t.queue.dropped >= dropped
          && next - |t.queue.frames| == first + |t.taken| + t.queue.dropped - dropped)
  }

  lemma {:induction false} TakeOneStands(
      capacity: nat, t: TakeResult, fs: seq<Frame>, first: int, dropped: nat, next: int, format: C.AudioFormat)
    requires TakeStands(t, first, dropped, next, format) && Numbered(fs, next, format)
    ensures TakeStands(TakeOne(capacity, t, fs), first, dropped, next + |fs|, format)
  {
    if !t.done {
      PushAllNumbered(capacity, t.queue, fs, next, format);
    }
  }

  lemma {:induction false} TakeNumbered(capacity: nat, q: Queue, between: seq<seq<Frame>>, next: int, format: C.AudioFormat)
    requires QueueNumbered(q, next, format) && NumberedParts(between, next, format)
    ensures TakeStands(Take(capacity, q, between), next - |q.frames|, q.dropped, next + Total(between), format)
  {
    if between != [] {
      var init, fs := between[..|between| - 1], between[|between| - 1];
      TakeNumbered(capacity, q, init, next, format);
      TakeOneStands(capacity, Take(capacity, q, init), fs, next - |q.frames|, q.dropped, next + Total(init), format);
    }
  }

  /** Capture to batch. When the capture thread pushes consecutively numbered frames of
      one HFP format, a downlink message is accepted by the handset, with exactly the
      frames taken, if and only if the queue dropped nothing between its first and its
      last pop; otherwise the handset must reject it. */
  lemma {:induction false} MessageAcceptedIffNoDrop(
      capacity: nat, q: Queue, between: seq<seq<Frame>>, capture: U64, next: int, format: C.AudioFormat)
    requires HfpFormat(format) && |between| == C.MAX_BATCH_FRAMES
    requires QueueNumbered(q, next, format) && NumberedParts(between, next, format)
    requires Take(capacity, q, between).taken != []
    requires forall k :: 0 <= k < |Take(capacity, q, between).taken| ==>
               Take(capacity, q, between).taken[k].frame.sequence <= I64_MAX
    ensures var taken := Take(capacity, q, between).taken;
            var ws := Wires(taken, capture);
            && B.AllValid(ws)
            && (taken[0].drops == taken[|taken| - 1].drops ==> B.ValidBatch(ws))
            && (taken[0].drops != taken[|taken| - 1].drops ==> B.NotABatch(B.EncodeBatch(ws)))
  {
    var taken := Take(capacity, q, between).taken;
    TakeNumbered(capacity, q, between, next, format);
    TakenAtMost(capacity, q, between);
    NumberedBatch(taken, capture, next - |q.frames|, q.dropped, format);
  }

  lemma {:induction false} NumberedBatch(taken: seq<Taken>, capture: U64, first: int, dropped: nat, format: C.AudioFormat)
    requires HfpFormat(format) && TakenNumbered(taken, first, dropped, format)
    requires 1 <= |taken| <= C.MAX_BATCH_FRAMES
    requires forall k :: 0 <= k < |taken| ==> taken[k].frame.sequence <= I64_MAX
    ensures var ws := Wires(taken, capture);
            && B.AllValid(ws)
            && (taken[0].drops == taken[|taken| - 1].drops ==> B.ValidBatch(ws))
            && (taken[0].drops != taken[|taken| - 1].drops ==> B.NotABatch(B.EncodeBatch(ws)))
  {
    var ws, n := Wires(taken, capture), |taken| - 1;
    WiresNumbered(taken, capture, first, dropped, format);
    if taken[0].drops == taken[n].drops {
      assert forall k :: 0 <= k < |ws| ==> ws[k].sequence == ws[0].sequence + k;
    } else {
      assert ws[n].sequence != ws[0].sequence + n;
      ScatteredIsNoBatch(ws);
    }
  }

  lemma {:induction false} ScatteredIsNoBatch(ws: seq<C.Wire>)
    requires B.AllValid(ws) && !B.Contiguous(ws)
    ensures B.NotABatch(B.EncodeBatch(ws))
  {
    forall vs | B.ValidBatch(vs) ensures B.EncodeBatch(vs) != B.EncodeBatch(ws) {
      if B.EncodeBatch(vs) == B.EncodeBatch(ws) {
        B.EncodeBatchInjective(vs, ws);
      }
    }
  }

  lemma {:induction false} WiresNumbered(taken: seq<Taken>, capture: U64, first: int, dropped: nat, format: C.AudioFormat)
    requires HfpFormat(format) && TakenNumbered(taken, first, dropped, format)
    requires forall k :: 0 <= k < |taken| ==> taken[k].frame.sequence <= I64_MAX
    ensures var ws := Wires(taken, capture);
            && B.AllValid(ws)
            && forall k :: 0 <= k < |ws| ==>
                 && ws[k].format == C.FormatCode(format)
                 && ws[k].sequence == first + k + taken[k].drops - dropped
  {
  }

  lemma {:induction false} TakenAtMost(capacity: nat, q: Queue, between: seq<seq<Frame>>)
    ensures |Take(capacity, q, between).taken| <= |between|
  {
    if between != [] {
      TakenAtMost(capacity, q, between[..|between| - 1]);
    }
  }

  /** `capture_into_bridge`: the frame just read goes to the queue, so the queue always
      holds the frames numbered just before the reader's next one. */
  method CaptureIntoBridge(reader: PcmFrameReader, queue: BoundedAudioQueue) returns (r: PcmResult)
    requires reader.Valid() && reader.Aligned() && queue.Valid()
    requires QueueNumbered(queue.model, reader.next, reader.format)
    modifies reader, reader.source, queue
    ensures reader.Valid() && queue.Valid()
    ensures r.ReadFrame? ==>
              && reader.Aligned() && QueueNumbered(queue.model, reader.next, reader.format)
              && queue.model == Push(queue.capacity, old(queue.model), r.frame)
    ensures !r.ReadFrame? ==> queue.model == old(queue.model)
  {
    r := reader.ReadNumbered();
    if r.ReadFrame? {
      ghost var before := queue.model;
      queue.PushFrame(r.frame);
      PushAllNumbered(queue.capacity, before, [r.frame], r.frame.sequence, reader.format);
      assert [r.frame][..0] == [];
      assert PushAll(queue.capacity, before, [r.frame]) == queue.model;
    }
  }

  // ---- from the daemon's queue to the handset ----

  lemma {:induction false} TakenPrefix(capacity: nat, q: Queue, between: seq<seq<Frame>>, i: nat)
    requires i <= |between|
    ensures Take(capacity, q, between[..i]).taken <= Take(capacity, q, between).taken
  {
    if i == |between| {
      assert between[..i] == between;
    } else {
      var init := between[..|between| - 1];
      assert init[..i] == between[..i];
      TakenPrefix(capacity, q, init, i);
    }
  }

  lemma {:induction false} NumberedPartsValid(between: seq<seq<Frame>>, next: int, format: C.AudioFormat)
    requires NumberedParts(between, next, format)
    ensures AllFramesValid(Flatten(between))
  {
    if between != [] {
      var init, last := between[..|between| - 1], between[|between| - 1];
      NumberedPartsValid(init, next, format);
      assert between == init + [last];
      FlattenLast(init, last);
    }
  }

  /** The whole downlink: whatever is captured meanwhile, a message goes out exactly when
      a frame was there to take, and the handset's decoder accepts it exactly when the
      queue dropped nothing between the first and the last pop; what it then has are the
      frames taken. */
  method DownlinkToHandset(
      queue: BoundedAudioQueue, capture: U64, between: seq<seq<Frame>>, ghost next: int, ghost format: C.AudioFormat)
      returns (message: BatchResult, decoded: Option<seq<C.Decoded>>)
    requires queue.Valid() && |between| == C.MAX_BATCH_FRAMES && HfpFormat(format)
    requires QueueNumbered(queue.model, next, format) && NumberedParts(between, next, format)
    requires forall k :: 0 <= k < |Take(queue.capacity, queue.model, between).taken| ==>
               Take(queue.capacity, queue.model, between).taken[k].frame.sequence <= I64_MAX
    modifies queue
    ensures queue.Valid() && queue.model == Take(queue.capacity, old(queue.model), between).queue
    ensures var taken := Take(queue.capacity, old(queue.model), between).taken;
            && (message.Message? <==> taken != []) && (message.NoFrames? <==> taken == [])
            && (decoded.Some? <==> taken != [] && taken[0].drops == taken[|taken| - 1].drops)
            && (decoded.Some? ==>
                  && |decoded.value| == |taken|
                  && forall i :: 0 <= i < |taken| ==>
                       && decoded.value[i].format == C.FormatCode(format)
                       && decoded.value[i].sequence == taken[i].frame.sequence
                       && decoded.value[i].samples == taken[i].frame.samples)
  {
    ghost var start, taken := queue.model, Take(queue.capacity, queue.model, between).taken;
    NumberedPartsValid(between, next, format);
    TakeNumbered(queue.capacity, start, between, next, format);
    ghost var pops;
    message, pops := TakeDownlinkBatch(queue, capture, between);
    TakenPrefix(queue.capacity, start, between, pops);
    if message.InvalidPacket? {
      AllEncodable(taken, Take(queue.capacity, start, between[..pops]).taken, format);
    }
    if !message.Message? {
      return message, None;
    }
    MessageAcceptedIffNoDrop(queue.capacity, start, between, capture, next, format);
    ghost var ws;
    decoded, ws := B.JavaDecodeBatch(message.bytes);
    if decoded.Some? {
      B.EncodeBatchInjective(ws, Wires(taken, capture));
    }
  }

  lemma {:induction false} AllEncodable(taken: seq<Taken>, some: seq<Taken>, format: C.AudioFormat)
    requires HfpFormat(format) && some <= taken && some != []
    requires forall k :: 0 <= k < |taken| ==> taken[k].frame.sequence <= I64_MAX && taken[k].frame.format == format
    ensures Encodable(some[|some| - 1].frame)
  {
    assert some[|some| - 1] == taken[|some| - 1];
  }

  // ---- the queue and the batch, step by step ----

  /** A push is dropped on nobody but the oldest frame, and only when the queue is full; a
      pop takes the oldest frame. */
  lemma {:induction false} QueueSteps(capacity: nat, events: seq<QueueEvent>, f: Frame)
    requires capacity > 0
    ensures var q := QueueRun(capacity, events);
            var pushed, popped := QueueStep(capacity, q, PushEvent(f)), QueueStep(capacity, q, PopEvent);
            && pushed.frames == (if |q.frames| == capacity then q.frames[1..] else q.frames) + [f]
            && pushed.dropped == q.dropped + (if |q.frames| == capacity then 1 else 0)
            && pushed.enqueued == q.enqueued + 1 && pushed.dequeued == q.dequeued
            && popped.frames == (if q.frames == [] then [] else q.frames[1..])
            && popped.dequeued == q.dequeued + (if q.frames == [] then 0 else 1)
            && popped.enqueued == q.enqueued && popped.dropped == q.dropped
  {
    QueueHoldsSuffix(capacity, events);
  }

  /** Fewer than four frames are taken only if the queue ran empty. */
  lemma {:induction false} TakesUntilEmpty(capacity: nat, q: Queue, between: seq<seq<Frame>>)
    ensures var t := Take(capacity, q, between);
            (t.done ==> t.queue.frames == []) && (!t.done ==> |t.taken| == |between|)
  {
    if between != [] {
      TakesUntilEmpty(capacity, q, between[..|between| - 1]);
    }
  }

  /** With nothing captured meanwhile, a message takes the oldest frames in order. */
  lemma {:induction false} TakesOldest(capacity: nat, q: Queue, between: seq<seq<Frame>>)
    requires forall i :: 0 <= i < |between| ==> between[i] == []
    ensures var t := Take(capacity, q, between);
            && |t.taken| == Min(|between|, |q.frames|) && t.queue.frames == q.frames[|t.taken|..]
            && forall k :: 0 <= k < |t.taken| ==> t.taken[k] == Taken(q.frames[k], q.dropped)
    ensures Take(capacity, q, between).queue.dropped == q.dropped
    ensures Take(capacity, q, between).done <==> |q.frames| < |between|
  {
    if between != [] {
      TakesOldest(capacity, q, between[..|between| - 1]);
    }
  }
}

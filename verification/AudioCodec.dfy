/** The ACAP audio packet format, with its Rust and its Java implementation. `Wire` is
    the format itself: what a packet carries and the bytes that carry it. Both
    implementations are measured against it. */
module AudioCodec {
  import opened Common

  const MAGIC: Bytes := [65, 67, 65, 80]
  const VERSION := 1
  const HEADER_BYTES := 24
  const MAX_BATCH_FRAMES := 4

  datatype Wire = Wire(format: int, sequence: int, capture: int, samples: seq<I16>)

  predicate KnownFormat(format: int) {
    format == 1 || format == 2
  }

  function SampleCount(format: int): nat
    requires KnownFormat(format)
  {
    if format == 1 then 60 else 120
  }

  function PacketBytes(format: int): nat
    requires KnownFormat(format)
  {
    HEADER_BYTES + 2 * SampleCount(format)
  }

  predicate ValidWire(w: Wire) {
    && KnownFormat(w.format)
    && 0 <= w.sequence <= I64_MAX
    && 0 <= w.capture <= U64_MAX
    && |w.samples| == SampleCount(w.format)
  }

  function EncodeSamples(samples: seq<I16>): (r: Bytes)
    ensures |r| == 2 * |samples|
  {
    if samples == [] then []
    else EncodeSamples(samples[..|samples| - 1]) + SampleBytes(samples[|samples| - 1])
  }

  function DecodeSamples(payload: Bytes): (r: seq<I16>)
    requires |payload| % 2 == 0
    ensures |r| == |payload| / 2
  {
    if payload == [] then []
    else
      var n := |payload|;
      DecodeSamples(payload[..n - 2]) + [BytesSample(payload[n - 2], payload[n - 1])]
  }

  function EncodeHeader(format: Byte, sequence: nat, capture: nat): (r: Bytes)
    ensures |r| == HEADER_BYTES
  {
    MAGIC + [VERSION, format, 0, 0] + ToBigEndian(sequence, 8) + ToBigEndian(capture, 8)
  }

  /** The bytes of a packet. */
  function EncodeWire(w: Wire): (r: Bytes)
    requires ValidWire(w)
    ensures |r| == PacketBytes(w.format)
  {
    EncodeHeader(w.format, w.sequence, w.capture) + EncodeSamples(w.samples)
  }

  function DecodeWire(b: Bytes): Option<Wire> {
    if |b| < HEADER_BYTES || b[..4] != MAGIC || b[4] != VERSION || b[6] != 0 || b[7] != 0 then None
    else if !KnownFormat(b[5]) || |b| != PacketBytes(b[5]) then None
    else if FromBigEndian(b[8..16]) > I64_MAX then None
    else Some(Wire(b[5], FromBigEndian(b[8..16]), FromBigEndian(b[16..24]), DecodeSamples(b[24..])))
  }

  // ---- the wire format is a bijection ----

  lemma {:induction false} SamplesSnoc(init: seq<I16>, s: I16)
    ensures EncodeSamples(init + [s]) == EncodeSamples(init) + SampleBytes(s)
  {
    assert (init + [s])[..|init|] == init;
  }

  lemma {:induction false} PayloadSnoc(init: Bytes, low: Byte, high: Byte)
    requires |init| % 2 == 0
    ensures DecodeSamples(init + [low, high]) == DecodeSamples(init) + [BytesSample(low, high)]
  {
    assert (init + [low, high])[..|init|] == init;
  }

  lemma {:induction false} AppendSample(header: Bytes, samples: seq<I16>, i: nat)
    requires i < |samples|
    ensures header + EncodeSamples(samples[..i + 1])
         == header + EncodeSamples(samples[..i]) + SampleBytes(samples[i])
  {
    SamplesSnoc(samples[..i], samples[i]);
    assert samples[..i + 1] == samples[..i] + [samples[i]];
    ConcatAssociative(header, EncodeSamples(samples[..i]), SampleBytes(samples[i]));
  }

  lemma {:induction false} ReadSample(payload: Bytes, n: nat)
    requires n % 2 == 0 && n + 2 <= |payload|
    ensures DecodeSamples(payload[..n + 2])
         == DecodeSamples(payload[..n]) + [BytesSample(payload[n], payload[n + 1])]
  {
    PayloadSnoc(payload[..n], payload[n], payload[n + 1]);
    assert payload[..n + 2] == payload[..n] + [payload[n], payload[n + 1]];
  }

  lemma {:induction false} DecodeEncodeSamples(samples: seq<I16>)
    ensures DecodeSamples(EncodeSamples(samples)) == samples
  {
    if samples != [] {
      var init, s := samples[..|samples| - 1], samples[|samples| - 1];
      assert samples == init + [s];
      DecodeEncodeSamples(init);
      SamplesSnoc(init, s);
      var b := SampleBytes(s);
      SampleRoundTrip(s);
      PayloadSnoc(EncodeSamples(init), b[0], b[1]);
      assert b == [b[0], b[1]];
    }
  }

  lemma {:induction false} EncodeDecodeSamples(payload: Bytes)
    requires |payload| % 2 == 0
    ensures EncodeSamples(DecodeSamples(payload)) == payload
  {
    if payload != [] {
      var n := |payload|;
      var init, low, high := payload[..n - 2], payload[n - 2], payload[n - 1];
      assert payload == init + [low, high];
      EncodeDecodeSamples(init);
      PayloadSnoc(init, low, high);
      SamplesSnoc(DecodeSamples(init), BytesSample(low, high));
      SampleBytesOnto(low, high);
    }
  }

  lemma {:induction false} HeaderFields(format: Byte, sequence: nat, capture: nat, rest: Bytes)
    ensures var b := EncodeHeader(format, sequence, capture) + rest;
            && b[..4] == MAGIC && b[4] == VERSION && b[5] == format && b[6] == 0 && b[7] == 0
            && b[8..16] == ToBigEndian(sequence, 8) && b[16..24] == ToBigEndian(capture, 8)
            && b[24..] == rest
  {
  }

  lemma {:induction false} HeaderOf(b: Bytes)
    requires |b| >= HEADER_BYTES
    requires b[..4] == MAGIC && b[4] == VERSION && b[6] == 0 && b[7] == 0
    ensures b == EncodeHeader(b[5], FromBigEndian(b[8..16]), FromBigEndian(b[16..24])) + b[24..]
  {
    BigEndianBytes(b[8..16]);
    BigEndianBytes(b[16..24]);
    assert b == b[..4] + [b[4], b[5], b[6], b[7]] + b[8..16] + b[16..24] + b[24..];
  }

  lemma {:induction false} DecodeWireInverts(w: Wire)
    requires ValidWire(w)
    ensures DecodeWire(EncodeWire(w)) == Some(w)
  {
    HeaderFields(w.format, w.sequence, w.capture, EncodeSamples(w.samples));
    Pow256Eight();
    BigEndianValue(w.sequence, 8);
    BigEndianValue(w.capture, 8);
    DecodeEncodeSamples(w.samples);
  }

  lemma {:induction false} DecodeWireSound(b: Bytes)
    requires DecodeWire(b).Some?
    ensures ValidWire(DecodeWire(b).value) && EncodeWire(DecodeWire(b).value) == b
  {
    Pow256Eight();
    BigEndianBytes(b[16..24]);
    HeaderOf(b);
    EncodeDecodeSamples(b[24..]);
  }

  /** A byte string is accepted, as `w`, exactly when it is the encoding of the
      valid packet `w`. */
  lemma {:induction false} DecodeWireExact(b: Bytes, w: Wire)
    ensures DecodeWire(b) == Some(w) <==> ValidWire(w) && b == EncodeWire(w)
  {
    if DecodeWire(b) == Some(w) {
      DecodeWireSound(b);
    }
    if ValidWire(w) && b == EncodeWire(w) {
      DecodeWireInverts(w);
    }
  }

  // ---- the Rust packet ----

  datatype AudioFormat = AudioFormat(sampleRate: nat, channels: nat, samplesPerChannel: nat)

  const WIDEBAND := AudioFormat(16000, 1, 120)
  const NARROWBAND := AudioFormat(8000, 1, 60)

  datatype AudioFrame = AudioFrame(sequence: U64, format: AudioFormat, samples: seq<I16>) {
    /** What `AudioFrame::new` establishes. */
    predicate Valid() {
      && format.sampleRate != 0 && format.channels != 0
      && |samples| == format.samplesPerChannel * format.channels
    }
  }

  function NewFrame(sequence: U64, format: AudioFormat, samples: seq<I16>): (r: Option<AudioFrame>)
    ensures r.Some? ==> r.value.Valid()
    ensures r.Some? <==> AudioFrame(sequence, format, samples).Valid()
  {
    var expected := format.samplesPerChannel * format.channels;
    if format.sampleRate == 0 || format.channels == 0 || |samples| != expected then None
    else Some(AudioFrame(sequence, format, samples))
  }

  datatype AudioPacket = AudioPacket(capture: U64, frame: AudioFrame)

  datatype PacketError = InvalidHeader | UnsupportedFormat | InvalidPayload | SequenceOutOfRange

  datatype Result<+T> = Ok(value: T) | Err(error: PacketError)

  function FormatCode(format: AudioFormat): int {
    if format == NARROWBAND then 1 else if format == WIDEBAND then 2 else 0
  }

  function CodeFormat(code: int): AudioFormat
    requires KnownFormat(code)
  {
    if code == 1 then NARROWBAND else WIDEBAND
  }

  function ToWire(p: AudioPacket): Wire {
    Wire(FormatCode(p.frame.format), p.frame.sequence, p.capture, p.frame.samples)
  }

  /** `AudioPacket::encode`: the two HFP formats and cross-platform sequences only. */
  method RustEncode(p: AudioPacket) returns (r: Result<Bytes>)
    requires p.frame.Valid()
    ensures p.frame.sequence > I64_MAX ==> r == Err(SequenceOutOfRange)
    ensures p.frame.sequence <= I64_MAX && p.frame.format !in {NARROWBAND, WIDEBAND} ==>
              r == Err(UnsupportedFormat)
    ensures p.frame.sequence <= I64_MAX && p.frame.format in {NARROWBAND, WIDEBAND} ==>
              ValidWire(ToWire(p)) && r == Ok(EncodeWire(ToWire(p)))
  {
    if p.frame.sequence > I64_MAX {
      return Err(SequenceOutOfRange);
    }
    var packet := MAGIC + [VERSION];
    if p.frame.format != NARROWBAND && p.frame.format != WIDEBAND {
      return Err(UnsupportedFormat);
    }
    packet := packet + [if p.frame.format == NARROWBAND then 1 else 2];
    packet := packet + [0, 0];
    packet := packet + ToBigEndian(p.frame.sequence, 8);
    packet := packet + ToBigEndian(p.capture, 8);
    ghost var header := EncodeHeader(FormatCode(p.frame.format), p.frame.sequence, p.capture);
    assert packet == header;
    var samples := p.frame.samples;
    for i := 0 to |samples|
      invariant packet == header + EncodeSamples(samples[..i])
    {
      AppendSample(header, samples, i);
      packet := packet + SampleBytes(samples[i]);
    }
    assert samples[..|samples|] == samples;
    return Ok(packet);
  }

  /** `AudioPacket::decode`, with its errors in the order it reports them. */
  function RustDecode(packet: Bytes): Result<AudioPacket> {
    if |packet| < HEADER_BYTES || packet[..4] != MAGIC || packet[4] != VERSION
       || packet[6] != 0 || packet[7] != 0 then Err(InvalidHeader)
    else if !KnownFormat(packet[5]) then Err(UnsupportedFormat)
    else
      var format := CodeFormat(packet[5]);
      var payload := packet[HEADER_BYTES..];
      if |payload| != format.samplesPerChannel * 2 then Err(InvalidPayload)
      else
        var sequence := FromBigEndian(packet[8..16]);
        if sequence > I64_MAX then Err(SequenceOutOfRange)
        else
          Pow256Eight();
          BigEndianBytes(packet[16..24]);
          match NewFrame(sequence, format, DecodeSamples(payload))
          case None => Err(InvalidPayload)
          case Some(frame) => Ok(AudioPacket(FromBigEndian(packet[16..24]), frame))
  }

  /** Rust decode accepts exactly the encodings of valid packets, as that packet. */
  lemma {:induction false} RustDecodeExact(b: Bytes)
    ensures RustDecode(b).Ok? <==> DecodeWire(b).Some?
    ensures RustDecode(b).Ok? ==>
              && RustDecode(b).value.frame.Valid()
              && RustDecode(b).value.frame.format in {NARROWBAND, WIDEBAND}
              && DecodeWire(b) == Some(ToWire(RustDecode(b).value))
  {
  }

  /** Which error a refused packet gets: the first that applies, in the order header, format,
      payload length, sequence. */
  lemma {:induction false} RustDecodeErrors(b: Bytes)
    ensures var r := RustDecode(b);
            var header := |b| >= 24 && b[..8] == [65, 67, 65, 80, 1] + b[5..6] + [0, 0];
            && (r == Err(InvalidHeader) <==> !header)
            && (r == Err(UnsupportedFormat) <==> header && b[5] != 1 && b[5] != 2)
            && (r == Err(InvalidPayload)
                <==> header && ((b[5] == 1 && |b| != 144) || (b[5] == 2 && |b| != 264)))
            && (r == Err(SequenceOutOfRange)
                <==> header && ((b[5] == 1 && |b| == 144) || (b[5] == 2 && |b| == 264)) && FromBigEndian(b[8..16]) > I64_MAX)
  {
    if |b| >= 24 {
      assert b[..8] == b[..4] + [b[4]] + b[5..6] + [b[6], b[7]];
      var expected: Bytes := [65, 67, 65, 80, 1] + b[5..6] + [0, 0];
      assert b[..8] == expected <==> b[..4] == MAGIC && b[4] == 1 && b[6] == 0 && b[7] == 0 by {
        if b[..8] == expected {
          assert b[..8][..4] == b[..4] && expected[..4] == MAGIC;
          assert b[..8][4] == b[4] && b[..8][6] == b[6] && b[..8][7] == b[7];
        }
      }
    }
  }

  /** Rust packets round-trip through their bytes. */
  lemma {:induction false} RustRoundTrip(p: AudioPacket)
    requires p.frame.Valid() && p.frame.sequence <= I64_MAX && p.frame.format in {NARROWBAND, WIDEBAND}
    ensures ValidWire(ToWire(p)) && RustDecode(EncodeWire(ToWire(p))) == Ok(p)
  {
    var b := EncodeWire(ToWire(p));
    DecodeWireInverts(ToWire(p));
    RustDecodeExact(b);
  }

  // ---- the Java packet ----

  datatype Decoded = Decoded(format: int, sequence: I64, capture: I64, samples: seq<I16>)

  function Signed(n: U64): I64 {
    if n > I64_MAX then n - 0x1_0000_0000_0000_0000 else n
  }

  function Unsigned(n: I64): U64 {
    if n < 0 then n + 0x1_0000_0000_0000_0000 else n
  }

  /** The Java view of what is on the wire: capture times are signed. */
  function JavaView(w: Wire): Decoded
    requires ValidWire(w)
  {
    Decoded(w.format, w.sequence, Signed(w.capture), w.samples)
  }

  function JavaWire(d: Decoded): Wire {
    Wire(d.format, d.sequence, Unsigned(d.capture), d.samples)
  }

  /** `encode`; `None` stands for a `PacketException`. */
  method JavaEncode(format: int, sequence: I64, capture: I64, samples: seq<I16>)
      returns (r: Option<Bytes>)
    ensures var w := JavaWire(Decoded(format, sequence, capture, samples));
            if ValidWire(w) then r == Some(EncodeWire(w)) else r.None?
  {
    if !KnownFormat(format) {
      return None;
    }
    if sequence < 0 {
      return None;
    }
    if |samples| != SampleCount(format) {
      return None;
    }
    var packet := MAGIC + [VERSION] + [format] + [0, 0];
    packet := packet + ToBigEndian(Unsigned(sequence), 8);
    packet := packet + ToBigEndian(Unsigned(capture), 8);
    ghost var header := EncodeHeader(format, sequence, Unsigned(capture));
    assert packet == header;
    for i := 0 to |samples|
      invariant packet == header + EncodeSamples(samples[..i])
    {
      AppendSample(header, samples, i);
      packet := packet + SampleBytes(samples[i]);
    }
    assert samples[..|samples|] == samples;
    return Some(packet);
  }

  /** The sample loop of `decode`. */
  method JavaReadSamples(bytes: Bytes, count: nat) returns (samples: seq<I16>)
    requires |bytes| == HEADER_BYTES + 2 * count
    ensures samples == DecodeSamples(bytes[HEADER_BYTES..])
  {
    samples := [];
    var position := HEADER_BYTES;
    ghost var payload := bytes[HEADER_BYTES..];
    while |samples| < count
      invariant |samples| <= count && position == HEADER_BYTES + 2 * |samples|
      invariant samples == DecodeSamples(payload[..2 * |samples|])
    {
      ReadSample(payload, 2 * |samples|);
      samples := samples + [BytesSample(bytes[position], bytes[position + 1])];
      position := position + 2;
    }
    assert payload[..|payload|] == payload;
  }

  /** `decode`: a cursor moves through the buffer, byte order changing on the way. */
  method JavaDecode(bytes: Bytes) returns (r: Option<Decoded>)
    ensures r.Some? <==> DecodeWire(bytes).Some?
    ensures r.Some? ==> ValidWire(DecodeWire(bytes).value) && r.value == JavaView(DecodeWire(bytes).value)
  {
    if |bytes| < HEADER_BYTES {
      return None;
    }
    var position := 0;
    while position < 4
      invariant 0 <= position <= 4 && bytes[..position] == MAGIC[..position]
    {
      if bytes[position] != MAGIC[position] {
        assert bytes[..4][position] != MAGIC[position];
        return None;
      }
      position := position + 1;
    }
    assert bytes[..4] == MAGIC;
    if bytes[position] != VERSION {
      return None;
    }
    position := position + 1;
    var format := bytes[position];
    position := position + 1;
    if bytes[position] != 0 || bytes[position + 1] != 0 {
      return None;
    }
    position := position + 2;
    if !KnownFormat(format) {
      return None;
    }
    if |bytes| - position != 16 + SampleCount(format) * 2 {
      return None;
    }
    Pow256Eight();
    BigEndianBytes(bytes[8..16]);
    var sequence := Signed(FromBigEndian(bytes[position..position + 8]));
    if sequence < 0 {
      return None;
    }
    position := position + 8;
    BigEndianBytes(bytes[16..24]);
    var capture := Signed(FromBigEndian(bytes[position..position + 8]));
    position := position + 8;
    var samples := JavaReadSamples(bytes, SampleCount(format));
    return Some(Decoded(format, sequence, capture, samples));
  }

  // ---- the layout, place by place ----

  lemma {:induction false} SampleLies(samples: seq<I16>, i: nat)
    requires i < |samples|
    ensures EncodeSamples(samples)[2 * i..2 * i + 2] == SampleBytes(samples[i])
  {
    var init, bytes := samples[..|samples| - 1], EncodeSamples(samples);
    var front := EncodeSamples(init);
    assert bytes == front + SampleBytes(samples[|samples| - 1]);
    if i < |init| {
      SampleLies(init, i);
      assert bytes[2 * i..2 * i + 2] == front[2 * i..2 * i + 2];
    } else {
      assert bytes[|front|..|front| + 2] == SampleBytes(samples[i]);
    }
  }

  /** The bytes of a packet: the letters ACAP, version 1, the format, two zeros, the
      sequence and the capture time with their first byte counting most, and the samples
      with their low byte first. */
  lemma {:induction false} PacketLayout(w: Wire, i: nat)
    requires ValidWire(w) && i < |w.samples|
    ensures var b := EncodeWire(w);
            && b[..8] == ['A' as int, 'C' as int, 'A' as int, 'P' as int, 1, w.format, 0, 0]
            && FromBigEndian(b[8..16]) == w.sequence && FromBigEndian(b[16..24]) == w.capture
            && |b| == 24 + 2 * |w.samples|
            && b[24 + 2 * i..26 + 2 * i] == SampleBytes(w.samples[i])
  {
    var b, samples := EncodeWire(w), EncodeSamples(w.samples);
    HeaderFields(w.format, w.sequence, w.capture, samples);
    Pow256Eight();
    BigEndianValue(w.sequence, 8);
    BigEndianValue(w.capture, 8);
    SampleLies(w.samples, i);
    assert b[24..][2 * i..2 * i + 2] == b[24 + 2 * i..26 + 2 * i];
    assert b[..8] == b[..4] + [b[4], b[5], b[6], b[7]];
  }

  /** Format 1 is 60 samples at 8 kHz, format 2 is 120 at 16 kHz, both of one channel. */
  lemma {:induction false} FormatNumbers(p: AudioPacket)
    requires p.frame.Valid() && ValidWire(ToWire(p))
    ensures ToWire(p).format == 1 <==> p.frame.format == AudioFormat(8000, 1, 60)
    ensures ToWire(p).format == 2 <==> p.frame.format == AudioFormat(16000, 1, 120)
    ensures ToWire(p).sequence == p.frame.sequence && ToWire(p).capture == p.capture && ToWire(p).samples == p.frame.samples
  {
  }
}

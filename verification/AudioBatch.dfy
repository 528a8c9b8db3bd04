/** Batches of one to four audio packets. The Rust decoder checks continuity as it
    goes, the Java decoder at the end; both accept exactly the concatenations of
    consecutive packets of one format. */
module AudioBatch {
  import opened Common
  import opened AudioCodec

  ghost predicate AllValid(ws: seq<Wire>) {
    forall i :: 0 <= i < |ws| ==> ValidWire(ws[i])
  }

  /** One format, consecutive sequence numbers. */
  ghost predicate Contiguous(ws: seq<Wire>) {
    forall i :: 0 <= i < |ws| ==> ws[i].format == ws[0].format && ws[i].sequence == ws[0].sequence + i
  }

  ghost predicate ValidBatch(ws: seq<Wire>) {
    1 <= |ws| <= MAX_BATCH_FRAMES && AllValid(ws) && Contiguous(ws)
  }

  /** A batch is one to four packets of one format, numbered consecutively. */
  lemma {:induction false} ValidBatchExactly(ws: seq<Wire>)
    ensures ValidBatch(ws)
       <==> && (|ws| == 1 || |ws| == 2 || |ws| == 3 || |ws| == 4) && AllValid(ws)
            && forall i :: 1 <= i < |ws| ==> FollowsPrevious(ws, i)
  {
    if forall i :: 1 <= i < |ws| ==> FollowsPrevious(ws, i) {
      StepsAreContiguous(ws);
    }
    if Contiguous(ws) {
      forall i | 1 <= i < |ws| ensures FollowsPrevious(ws, i) {
        assert ws[i - 1].sequence == ws[0].sequence + (i - 1);
      }
    }
  }

  ghost predicate FollowsPrevious(ws: seq<Wire>, i: int)
    requires 1 <= i < |ws|
  {
    ws[i].format == ws[i - 1].format && ws[i].sequence == ws[i - 1].sequence + 1
  }

  lemma {:induction false} StepsAreContiguous(ws: seq<Wire>)
    requires forall i :: 1 <= i < |ws| ==> FollowsPrevious(ws, i)
    ensures Contiguous(ws)
  {
    if |ws| > 1 {
      var n := |ws| - 1;
      assert FollowsPrevious(ws, n);
      forall i | 1 <= i < n ensures FollowsPrevious(ws[..n], i) {
        assert FollowsPrevious(ws, i);
      }
      StepsAreContiguous(ws[..n]);
      assert ws[..n][n - 1] == ws[n - 1] && ws[..n][0] == ws[0];
      forall i | 0 <= i < |ws| ensures ws[i].format == ws[0].format && ws[i].sequence == ws[0].sequence + i {
        assert i < n ==> ws[..n][i] == ws[i];
      }
    }
  }

  ghost function EncodeBatch(ws: seq<Wire>): Bytes
    requires AllValid(ws)
  {
    if ws == [] then [] else EncodeWire(ws[0]) + EncodeBatch(ws[1..])
  }

  /** The bytes are not the encoding of any batch. */
  ghost predicate NotABatch(bytes: Bytes) {
    forall ws :: ValidBatch(ws) ==> EncodeBatch(ws) != bytes
  }

  /** The packet the bytes begin with, if any. */
  ghost function FirstPacket(bytes: Bytes): Option<Wire> {
    if |bytes| < 6 || !KnownFormat(bytes[5]) || |bytes| < PacketBytes(bytes[5]) then None
    else DecodeWire(bytes[..PacketBytes(bytes[5])])
  }

  lemma {:induction false} FirstPacketExact(bytes: Bytes, w: Wire)
    requires ValidWire(w)
    ensures FirstPacket(bytes) == Some(w) <==> EncodeWire(w) <= bytes
  {
    HeaderFields(w.format, w.sequence, w.capture, EncodeSamples(w.samples));
    if EncodeWire(w) <= bytes {
      DecodeWireInverts(w);
      assert bytes[5] == w.format;
      assert bytes[..PacketBytes(w.format)] == EncodeWire(w);
    }
    if FirstPacket(bytes) == Some(w) {
      DecodeWireSound(bytes[..PacketBytes(bytes[5])]);
    }
  }

  lemma {:induction false} FirstPacketValid(bytes: Bytes)
    requires FirstPacket(bytes).Some?
    ensures var w := FirstPacket(bytes).value;
            ValidWire(w) && w.format == bytes[5] && EncodeWire(w) <= bytes
  {
    var n := PacketBytes(bytes[5]);
    DecodeWireSound(bytes[..n]);
  }

  /** At most one packet begins at a given place. */
  lemma {:induction false} FirstUnique(bytes: Bytes, v: Wire, w: Wire)
    requires ValidWire(v) && ValidWire(w) && EncodeWire(v) <= bytes && EncodeWire(w) <= bytes
    ensures v == w
  {
    FirstPacketExact(bytes, v);
    FirstPacketExact(bytes, w);
  }

  lemma {:induction false} PeelHead(done: seq<Wire>, ws: seq<Wire>)
    requires AllValid(done) && AllValid(ws) && EncodeBatch(done) <= EncodeBatch(ws) && done != []
    ensures ws != [] && ws[0] == done[0] && EncodeBatch(done[1..]) <= EncodeBatch(ws[1..])
  {
    var head, tail := EncodeWire(done[0]), EncodeBatch(done[1..]);
    assert EncodeBatch(done) == head + tail;
    assert EncodeBatch(ws)[..|head|] == (head + tail)[..|head|] == head;
    FirstUnique(EncodeBatch(ws), done[0], ws[0]);
    PrefixAfter(head, tail, EncodeBatch(ws[1..]));
  }

  /** The code is prefix-free: packets read from the front of a batch are its first
      packets. */
  lemma {:induction false} Peel(done: seq<Wire>, ws: seq<Wire>)
    requires AllValid(done) && AllValid(ws) && EncodeBatch(done) <= EncodeBatch(ws)
    ensures done <= ws
  {
    if done != [] {
      PeelHead(done, ws);
      Peel(done[1..], ws[1..]);
    }
  }

  lemma {:induction false} EncodeBatchAppend(a: seq<Wire>, b: seq<Wire>)
    requires AllValid(a) && AllValid(b)
    ensures AllValid(a + b) && EncodeBatch(a + b) == EncodeBatch(a) + EncodeBatch(b)
  {
    if a == [] {
      assert a + b == b;
    } else {
      EncodeBatchAppend(a[1..], b);
      assert (a + b)[1..] == a[1..] + b;
      ConcatAssociative(EncodeWire(a[0]), EncodeBatch(a[1..]), EncodeBatch(b));
    }
  }

  lemma {:induction false} PrefixAfter<T>(head: seq<T>, a: seq<T>, b: seq<T>)
    requires head + a <= head + b
    ensures a <= b
  {
    assert (head + b)[|head|..] == b && (head + a)[|head|..] == a;
    assert a == b[..|a|] by {
      forall i | 0 <= i < |a| ensures a[i] == b[i] {
        assert (head + a)[|head| + i] == (head + b)[|head| + i];
      }
    }
  }

  /** Batches are determined by their bytes. */
  lemma {:induction false} EncodeBatchInjective(a: seq<Wire>, b: seq<Wire>)
    requires AllValid(a) && AllValid(b) && EncodeBatch(a) == EncodeBatch(b)
    ensures a == b
  {
    Peel(a, b);
    Peel(b, a);
  }

  lemma {:induction false} BatchSnoc(ws: seq<Wire>, w: Wire)
    requires AllValid(ws) && ValidWire(w)
    ensures AllValid(ws + [w]) && EncodeBatch(ws + [w]) == EncodeBatch(ws) + EncodeWire(w)
  {
    EncodeBatchAppend(ws, [w]);
    assert EncodeBatch([w]) == EncodeWire(w) + EncodeBatch([w][1..]);
  }

  lemma {:induction false} BatchGrows(ws: seq<Wire>, i: nat)
    requires i < |ws| && AllValid(ws[..i]) && ValidWire(ws[i])
    ensures AllValid(ws[..i + 1]) && EncodeBatch(ws[..i + 1]) == EncodeBatch(ws[..i]) + EncodeWire(ws[i])
  {
    BatchSnoc(ws[..i], ws[i]);
    assert ws[..i + 1] == ws[..i] + [ws[i]];
  }

  // ---- reading packets one by one ----

  /** Both decoding loops keep this: the packets read so far encode the bytes read. */
  ghost predicate ReadSoFar(bytes: Bytes, offset: nat, done: seq<Wire>) {
    offset <= |bytes| && AllValid(done) && EncodeBatch(done) == bytes[..offset]
  }

  lemma {:induction false} SliceFurther(bytes: Bytes, offset: nat, n: nat)
    requires offset + n <= |bytes|
    ensures bytes[..offset + n] == bytes[..offset] + bytes[offset..][..n]
  {
  }

  lemma {:induction false} ReadOne(bytes: Bytes, offset: nat, done: seq<Wire>)
    requires ReadSoFar(bytes, offset, done) && FirstPacket(bytes[offset..]).Some?
    ensures var w := FirstPacket(bytes[offset..]).value;
            && ValidWire(w) && w.format == bytes[offset + 5]
            && ReadSoFar(bytes, offset + PacketBytes(w.format), done + [w])
  {
    var rest := bytes[offset..];
    var w := FirstPacket(rest).value;
    FirstPacketValid(rest);
    BatchSnoc(done, w);
    SliceFurther(bytes, offset, PacketBytes(w.format));
    assert rest[..PacketBytes(w.format)] == EncodeWire(w);
  }

  /** Any batch with these bytes starts with the packets read so far; the packets
      after them encode the bytes that remain. */
  lemma {:induction false} Remaining(bytes: Bytes, offset: nat, done: seq<Wire>, ws: seq<Wire>)
    requires ReadSoFar(bytes, offset, done) && AllValid(ws) && EncodeBatch(ws) == bytes
    ensures |done| <= |ws| && done == ws[..|done|] && EncodeBatch(ws[|done|..]) == bytes[offset..]
  {
    Peel(done, ws);
    assert ws == done + ws[|done|..];
    EncodeBatchAppend(done, ws[|done|..]);
  }

  /** Bytes remain but no packet begins here, or four packets were read already. */
  lemma {:induction false} StuckIsNoBatch(bytes: Bytes, offset: nat, done: seq<Wire>)
    requires ReadSoFar(bytes, offset, done) && offset < |bytes|
    requires FirstPacket(bytes[offset..]).None? || |done| >= MAX_BATCH_FRAMES
    ensures NotABatch(bytes)
  {
    forall ws | ValidBatch(ws) ensures EncodeBatch(ws) != bytes {
      if EncodeBatch(ws) == bytes {
        Remaining(bytes, offset, done, ws);
        var rest := ws[|done|..];
        assert rest != [] && rest[0] == ws[|done|];
        FirstPacketExact(bytes[offset..], rest[0]);
      }
    }
  }

  lemma {:induction false} ContiguousPrefix(ws: seq<Wire>, k: nat)
    requires Contiguous(ws) && k <= |ws|
    ensures Contiguous(ws[..k])
  {
  }

  /** A break in format or sequence spoils every batch that starts this way. */
  lemma {:induction false} BrokenIsNoBatch(bytes: Bytes, offset: nat, done: seq<Wire>)
    requires ReadSoFar(bytes, offset, done) && !Contiguous(done)
    ensures NotABatch(bytes)
  {
    forall ws | ValidBatch(ws) ensures EncodeBatch(ws) != bytes {
      if EncodeBatch(ws) == bytes {
        Remaining(bytes, offset, done, ws);
        ContiguousPrefix(ws, |done|);
        assert false;
      }
    }
  }

  lemma {:induction false} TooShort(bytes: Bytes)
    requires |bytes| < 144
    ensures NotABatch(bytes)
  {
    forall ws | ValidBatch(ws) ensures EncodeBatch(ws) != bytes {
      assert |EncodeWire(ws[0])| >= 144;
    }
  }

  lemma {:induction false} ContiguousSnoc(done: seq<Wire>, w: Wire)
    requires Contiguous(done)
    ensures Contiguous(done + [w])
       <==> (done == [] || (w.format == done[0].format && w.sequence == done[0].sequence + |done|))
  {
    var all := done + [w];
    assert all[|done|] == w;
    assert forall i :: 0 <= i < |done| ==> all[i] == done[i];
  }

  // ---- the Rust batch decoder ----

  /** The frames a decoder returns carry the batch's formats, sequences and samples. */
  ghost predicate RustAgrees(frames: seq<AudioFrame>, ws: seq<Wire>) {
    && |frames| == |ws|
    && forall i :: 0 <= i < |ws| ==>
         && frames[i].Valid() && FormatCode(frames[i].format) == ws[i].format
         && frames[i].sequence == ws[i].sequence && frames[i].samples == ws[i].samples
  }

  /** One packet of the batch, as the loop body of `decode_audio_batch` reads it. */
  method RustReadPacket(bytes: Bytes, offset: nat) returns (packet: Option<AudioPacket>, end: nat)
    requires offset <= |bytes|
    ensures packet.Some? <==> FirstPacket(bytes[offset..]).Some?
    ensures packet.Some? ==>
              && packet.value.frame.Valid() && packet.value.frame.format in {NARROWBAND, WIDEBAND}
              && FirstPacket(bytes[offset..]) == Some(ToWire(packet.value))
              && end == offset + PacketBytes(FirstPacket(bytes[offset..]).value.format)
  {
    if |bytes| - offset < 6 {
      return None, offset;
    }
    if !KnownFormat(bytes[offset + 5]) {
      return None, offset;
    }
    var packetBytes := if bytes[offset + 5] == 1 then 144 else 264;
    end := offset + packetBytes;
    if end > |bytes| {
      return None, offset;
    }
    assert bytes[offset..][..packetBytes] == bytes[offset..end];
    var decoded := RustDecode(bytes[offset..end]);
    RustDecodeExact(bytes[offset..end]);
    return if decoded.Ok? then Some(decoded.value) else None, end;
  }

  /** What the loop expects of the next packet after `ws`. */
  ghost predicate Expects(ws: seq<Wire>, format: Option<AudioFormat>, sequence: Option<int>) {
    if ws == [] then format.None? && sequence.None?
    else KnownFormat(ws[0].format) && format == Some(CodeFormat(ws[0].format)) && sequence == Some(ws[0].sequence + |ws|)
  }

  /** Checking each packet against the expectation is checking continuity. */
  lemma {:induction false} ExpectationIsContinuity(
      ws: seq<Wire>, p: AudioPacket, format: Option<AudioFormat>, sequence: Option<int>)
    requires Contiguous(ws) && Expects(ws, format, sequence)
    requires p.frame.Valid() && p.frame.format in {NARROWBAND, WIDEBAND}
    ensures Contiguous(ws + [ToWire(p)])
       <==> && (format.Some? ==> format.value == p.frame.format)
            && (sequence.Some? ==> sequence.value == p.frame.sequence)
    ensures Contiguous(ws + [ToWire(p)]) ==>
              Expects(ws + [ToWire(p)], Some(p.frame.format), Some(p.frame.sequence + 1))
  {
    ContiguousSnoc(ws, ToWire(p));
    assert ws != [] ==> (ws + [ToWire(p)])[0] == ws[0];
  }

  /** One round of the loop: a packet, checked against what is expected. */
  method RustNextFrame(bytes: Bytes, offset: nat, format: Option<AudioFormat>, sequence: Option<int>, ghost ws: seq<Wire>)
      returns (frame: Option<AudioFrame>, end: nat, ghost w: Wire)
    requires offset < |bytes| && ReadSoFar(bytes, offset, ws) && Contiguous(ws) && Expects(ws, format, sequence)
    ensures frame.None? ==> NotABatch(bytes)
    ensures frame.Some? ==>
              && RustAgrees([frame.value], [w]) && frame.value.sequence <= I64_MAX && offset < end
              && ReadSoFar(bytes, end, ws + [w]) && Contiguous(ws + [w])
              && Expects(ws + [w], Some(frame.value.format), Some(frame.value.sequence + 1))
  {
    var packet;
    packet, end := RustReadPacket(bytes, offset);
    if packet.None? {
      StuckIsNoBatch(bytes, offset, ws);
      w := Wire(0, 0, 0, []);
      return None, end, w;
    }
    w := ToWire(packet.value);
    ReadOne(bytes, offset, ws);
    ExpectationIsContinuity(ws, packet.value, format, sequence);
    if (format.Some? && format.value != packet.value.frame.format)
       || (sequence.Some? && sequence.value != packet.value.frame.sequence) {
      BrokenIsNoBatch(bytes, end, ws + [w]);
      return None, end, w;
    }
    return Some(packet.value.frame), end, w;
  }

  lemma {:induction false} RustAgreesSnoc(frames: seq<AudioFrame>, ws: seq<Wire>, frame: AudioFrame, w: Wire)
    requires RustAgrees(frames, ws) && RustAgrees([frame], [w])
    ensures RustAgrees(frames + [frame], ws + [w])
  {
    assert RustAgrees([frame], [w]) ==> [frame][0] == frame && [w][0] == w;
  }

  /** `decode_audio_batch`: continuity is checked packet by packet. The capture times
      are read and dropped; `ws` is the batch they came from. */
  method RustDecodeBatch(bytes: Bytes) returns (r: Option<seq<AudioFrame>>, ghost ws: seq<Wire>)
    ensures r.None? ==> NotABatch(bytes)
    ensures r.Some? ==> ValidBatch(ws) && EncodeBatch(ws) == bytes && RustAgrees(r.value, ws)
  {
    var frames: seq<AudioFrame> := [];
    var offset := 0;
    var expectedFormat: Option<AudioFormat> := None;
    var expectedSequence: Option<int> := None;
    ws := [];
    while offset < |bytes| && |frames| < MAX_BATCH_FRAMES
      invariant 0 <= offset <= |bytes| && |frames| <= MAX_BATCH_FRAMES
      invariant ReadSoFar(bytes, offset, ws) && Contiguous(ws) && RustAgrees(frames, ws)
      invariant (ws == [] ==> offset == 0) && Expects(ws, expectedFormat, expectedSequence)
      decreases |bytes| - offset
    {
      var frame, end;
      ghost var w;
      frame, end, w := RustNextFrame(bytes, offset, expectedFormat, expectedSequence, ws);
      if frame.None? {
        return None, ws;
      }
      expectedFormat := Some(frame.value.format);
      expectedSequence := if frame.value.sequence == U64_MAX then None else Some(frame.value.sequence + 1);
      if expectedSequence.None? && end != |bytes| {
        return None, ws;
      }
      RustAgreesSnoc(frames, ws, frame.value, w);
      frames := frames + [frame.value];
      ws := ws + [w];
      offset := end;
    }
    if frames == [] || offset != |bytes| {
      if offset < |bytes| {
        StuckIsNoBatch(bytes, offset, ws);
      } else {
        TooShort(bytes);
      }
      return None, ws;
    }
    assert bytes[..offset] == bytes;
    return Some(frames), ws;
  }

  // ---- the Java batch decoder and encoder ----

  ghost predicate JavaAgrees(frames: seq<Decoded>, ws: seq<Wire>) {
    && |frames| == |ws| && AllValid(ws)
    && forall i :: 0 <= i < |ws| ==> frames[i] == JavaView(ws[i])
  }

  /** Addition of Java longs wraps around. */
  function LongAdd(a: I64, b: nat): I64
    requires b <= I64_MAX
  {
    if a + b > I64_MAX then a + b - 0x1_0000_0000_0000_0000 else a + b
  }

  /** `validateBatch`; `false` stands for a `PacketException`. */
  method ValidateBatch(frames: seq<Decoded>) returns (ok: bool)
    ensures ok <==> && 1 <= |frames| <= MAX_BATCH_FRAMES
                    && forall i :: 0 <= i < |frames| ==>
                         && KnownFormat(frames[i].format) && frames[i].format == frames[0].format
                         && frames[i].sequence == LongAdd(frames[0].sequence, i)
  {
    if |frames| == 0 || |frames| > MAX_BATCH_FRAMES {
      return false;
    }
    var format, sequence := frames[0].format, frames[0].sequence;
    for i := 0 to |frames|
      invariant forall k :: 0 <= k < i ==>
                  && KnownFormat(frames[k].format) && frames[k].format == format
                  && frames[k].sequence == LongAdd(sequence, k)
    {
      if frames[i].format != format || frames[i].sequence != LongAdd(sequence, i) {
        return false;
      }
      if !KnownFormat(frames[i].format) {
        return false;
      }
    }
    return true;
  }

  /** One packet of the batch, as the loop body of `decodeBatch` reads it. */
  method JavaReadPacket(bytes: Bytes, offset: nat) returns (packet: Option<Decoded>, end: nat)
    requires offset <= |bytes|
    ensures packet.Some? <==> FirstPacket(bytes[offset..]).Some?
    ensures packet.Some? ==>
              var w := FirstPacket(bytes[offset..]).value;
              ValidWire(w) && packet.value == JavaView(w) && end == offset + PacketBytes(w.format)
  {
    if |bytes| - offset < 6 {
      return None, offset;
    }
    var format := bytes[offset + 5];
    if !KnownFormat(format) {
      return None, offset;
    }
    var packetBytes := HEADER_BYTES + SampleCount(format) * 2;
    end := offset + packetBytes;
    if end > |bytes| {
      return None, offset;
    }
    assert bytes[offset..][..packetBytes] == bytes[offset..end];
    packet := JavaDecode(bytes[offset..end]);
  }

  /** `decodeBatch`: packets first, continuity at the end. */
  method JavaDecodeBatch(bytes: Bytes) returns (r: Option<seq<Decoded>>, ghost ws: seq<Wire>)
    ensures r.None? ==> NotABatch(bytes)
    ensures r.Some? ==> ValidBatch(ws) && EncodeBatch(ws) == bytes && JavaAgrees(r.value, ws)
  {
    ws := [];
    if |bytes| < HEADER_BYTES + 60 * 2 {
      TooShort(bytes);
      return None, ws;
    }
    var offset := 0;
    var decoded: seq<Decoded> := [];
    while offset < |bytes| && |decoded| < MAX_BATCH_FRAMES
      invariant 0 <= offset <= |bytes| && |decoded| <= MAX_BATCH_FRAMES
      invariant ReadSoFar(bytes, offset, ws) && JavaAgrees(decoded, ws)
      invariant decoded == [] ==> offset == 0
      decreases |bytes| - offset
    {
      var packet, end := JavaReadPacket(bytes, offset);
      if packet.None? {
        StuckIsNoBatch(bytes, offset, ws);
        return None, ws;
      }
      ReadOne(bytes, offset, ws);
      decoded := decoded + [packet.value];
      ws := ws + [FirstPacket(bytes[offset..]).value];
      offset := end;
    }
    if offset != |bytes| || decoded == [] {
      StuckIsNoBatch(bytes, offset, ws);
      return None, ws;
    }
    assert bytes[..offset] == bytes;
    JavaContiguous(decoded, ws);
    var ok := ValidateBatch(decoded);
    if !ok {
      BrokenIsNoBatch(bytes, offset, ws);
      return None, ws;
    }
    return Some(decoded), ws;
  }

  /** Wrap-around cannot hide a gap: sequence numbers on the wire are not negative. */
  lemma {:induction false} JavaContiguous(frames: seq<Decoded>, ws: seq<Wire>)
    requires JavaAgrees(frames, ws) && 1 <= |ws| <= MAX_BATCH_FRAMES
    ensures Contiguous(ws) <==>
            forall i :: 0 <= i < |frames| ==>
              && KnownFormat(frames[i].format) && frames[i].format == frames[0].format
              && frames[i].sequence == LongAdd(frames[0].sequence, i)
  {
    forall i | 0 <= i < |ws|
      ensures (ws[i].format == ws[0].format && ws[i].sequence == ws[0].sequence + i)
         <==> && KnownFormat(frames[i].format) && frames[i].format == frames[0].format
              && frames[i].sequence == LongAdd(frames[0].sequence, i)
    {
      assert ValidWire(ws[i]) && ValidWire(ws[0]);
    }
  }

  ghost function JavaWires(frames: seq<Decoded>): (ws: seq<Wire>)
    ensures |ws| == |frames| && forall i :: 0 <= i < |ws| ==> ws[i] == JavaWire(frames[i])
  {
    seq(|frames|, i requires 0 <= i < |frames| => JavaWire(frames[i]))
  }

  lemma {:induction false} ValidBatchValidates(frames: seq<Decoded>)
    ensures ValidBatch(JavaWires(frames)) ==>
            forall i :: 0 <= i < |frames| ==>
              && KnownFormat(frames[i].format) && frames[i].format == frames[0].format
              && frames[i].sequence == LongAdd(frames[0].sequence, i)
  {
    var ws := JavaWires(frames);
    if ValidBatch(ws) {
      assert forall i :: 0 <= i < |frames| ==> frames[i] == JavaView(ws[i]);
      JavaContiguous(frames, ws);
    }
  }

  /** `encodeBatch`: exactly the valid batches have an encoding. */
  method JavaEncodeBatch(frames: seq<Decoded>) returns (r: Option<Bytes>)
    ensures r.Some? <==> ValidBatch(JavaWires(frames))
    ensures r.Some? ==> r.value == EncodeBatch(JavaWires(frames))
  {
    ghost var ws := JavaWires(frames);
    ValidBatchValidates(frames);
    var ok := ValidateBatch(frames);
    if !ok {
      return None;
    }
    var batch: Bytes := [];
    for i := 0 to |frames|
      invariant AllValid(ws[..i]) && batch == EncodeBatch(ws[..i])
    {
      var f := frames[i];
      var encoded := JavaEncode(f.format, f.sequence, f.capture, f.samples);
      assert ws[i] == JavaWire(Decoded(f.format, f.sequence, f.capture, f.samples));
      if encoded.None? {
        assert !ValidWire(ws[i]);
        return None;
      }
      BatchGrows(ws, i);
      batch := batch + encoded.value;
    }
    assert ws[..|ws|] == ws;
    assert JavaAgrees(frames, ws);
    JavaContiguous(frames, ws);
    return Some(batch);
  }

  /** The two decoders agree on every byte string: both reject it, or both accept it
      with the same formats, sequences and samples. */
  method DecodersAgree(bytes: Bytes) returns (rust: Option<seq<AudioFrame>>, java: Option<seq<Decoded>>)
    ensures rust.Some? <==> java.Some?
    ensures rust.Some? ==>
              && |rust.value| == |java.value|
              && forall i :: 0 <= i < |rust.value| ==>
                   && FormatCode(rust.value[i].format) == java.value[i].format
                   && rust.value[i].sequence == java.value[i].sequence
                   && rust.value[i].samples == java.value[i].samples
  {
    ghost var v, w;
    rust, v := RustDecodeBatch(bytes);
    java, w := JavaDecodeBatch(bytes);
    if rust.Some? && java.Some? {
      EncodeBatchInjective(v, w);
    }
  }
}

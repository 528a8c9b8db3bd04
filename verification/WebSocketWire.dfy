/** WebSocket client framing, restricted to unfragmented frames. `RfcParse` reads a
    frame as sections 5.2 and 5.3 of RFC 6455 describe it and serves as the independent
    reference for what the client writes and what it accepts. */
module WebSocketWire {
  import opened Common

  const MAX_PAYLOAD_BYTES := 1056
  const BINARY := 2
  const CLOSE := 8
  const PING := 9
  const PONG := 10

  datatype Frame = Frame(opcode: int, payload: Bytes)

  /** `validateOpcodeAndPayload`; control frames follow section 5.5 of RFC 6455. */
  predicate Legal(f: Frame) {
    && |f.payload| <= MAX_PAYLOAD_BYTES
    && (f.opcode == BINARY || f.opcode == CLOSE || f.opcode == PING || f.opcode == PONG)
    && (f.opcode >= CLOSE ==> |f.payload| <= 125)
    && (f.opcode == CLOSE ==> |f.payload| != 1)
  }

  /** Which frames may be sent and are accepted: binary, close, ping and pong (sections 5.2
      and 5.5 of RFC 6455), of at most 1056 bytes; a control frame carries at most 125, and
      a close frame none or at least the two of its status. */
  lemma {:induction false} LegalExactly(f: Frame)
    ensures Legal(f)
       <==> || (f.opcode == 2 && |f.payload| <= 1056)
            || (f.opcode == 8 && (|f.payload| == 0 || 2 <= |f.payload| <= 125))
            || ((f.opcode == 9 || f.opcode == 10) && |f.payload| <= 125)
  {
  }

  function Pow2(k: nat): (r: nat)
    ensures r > 0
  {
    if k == 0 then 1 else 2 * Pow2(k - 1)
  }

  /** Exclusive or of the `k` low-order bits. */
  function XorBits(a: nat, b: nat, k: nat): (r: nat)
    ensures r < Pow2(k)
  {
    if k == 0 then 0 else 2 * XorBits(a / 2, b / 2, k - 1) + (a % 2 + b % 2) % 2
  }

  lemma {:induction false} XorBitsTwice(a: nat, b: nat, k: nat)
    requires a < Pow2(k)
    ensures XorBits(XorBits(a, b, k), b, k) == a
  {
    if k > 0 {
      var h, p, q := XorBits(a / 2, b / 2, k - 1), a % 2, b % 2;
      XorBitsTwice(a / 2, b / 2, k - 1);
      HalfAndBit(h, (p + q) % 2);
      XorBit(p, q);
      HalfAndBit(a / 2, p);
    }
  }

  lemma {:induction false} HalfAndBit(h: nat, bit: nat)
    requires bit < 2
    ensures (2 * h + bit) / 2 == h && (2 * h + bit) % 2 == bit
  {
  }

  lemma {:induction false} XorBit(p: nat, q: nat)
    requires p < 2 && q < 2
    ensures ((p + q) % 2 + q) % 2 == p
  {
  }

  lemma {:induction false} Pow2Eight()
    ensures Pow2(8) == 256
  {
    assert Pow2(4) == 16;
  }

  function Xor(a: Byte, b: Byte): Byte {
    Pow2Eight();
    XorBits(a, b, 8)
  }

  lemma {:induction false} XorTwice(a: Byte, b: Byte)
    ensures Xor(Xor(a, b), b) == a
  {
    Pow2Eight();
    XorBitsTwice(a, b, 8);
  }

  /** Bit `k` of `x`. */
  function Bit(x: nat, k: nat): nat {
    (x / Pow2(k)) % 2
  }

  lemma {:induction false} HalvedTwice(x: nat, p: nat)
    requires p > 0
    ensures x / (2 * p) == (x / 2) / p
  {
    var h := x / 2;
    var q, r := h / p, h % p;
    assert h == p * q + r && x == 2 * h + x % 2;
    assert q * (2 * p) == 2 * (p * q) && (q + 1) * (2 * p) == 2 * (p * q) + 2 * p;
    QuotientIs(x, q, 2 * p);
  }

  /** Bit `k + 1` of a number is bit `k` of its half. */
  lemma {:induction false} BitOfHalf(x: nat, k: nat)
    ensures Bit(x, k + 1) == Bit(x / 2, k)
  {
    HalvedTwice(x, Pow2(k));
  }

  lemma {:induction false} LowBit(x: nat)
    ensures Bit(x, 0) == x % 2
  {
    assert Pow2(0) == 1;
  }

  lemma {:induction false} BitsOfDouble(h: nat, bit: nat, k: nat)
    requires bit < 2
    ensures Bit(2 * h + bit, 0) == bit && Bit(2 * h + bit, k + 1) == Bit(h, k)
  {
    HalfAndBit(h, bit);
    LowBit(2 * h + bit);
    BitOfHalf(2 * h + bit, k);
  }

  lemma {:induction false} XorBitsBitwise(a: nat, b: nat, n: nat, k: nat)
    requires k < n
    ensures Bit(XorBits(a, b, n), k) == if Bit(a, k) != Bit(b, k) then 1 else 0
  {
    var m: nat := n - 1;
    var h, low := XorBits(a / 2, b / 2, m), if a % 2 == b % 2 then 0 else 1;
    XorTop(a, b, n);
    assert XorBits(a, b, n) == 2 * h + low;
    if k == 0 {
      BitsOfDouble(h, low, 0);
      LowBit(a);
      LowBit(b);
    } else {
      var j: nat := k - 1;
      XorBitsBitwise(a / 2, b / 2, m, j);
      BitsOfDouble(h, low, j);
      BitOfHalf(a, j);
      BitOfHalf(b, j);
    }
  }

  /** Exclusive or, bit by bit: a bit of the result is set exactly when the two differ. */
  lemma {:induction false} XorIsBitwise(a: Byte, b: Byte, k: nat)
    requires k < 8
    ensures Bit(Xor(a, b), k) == 1 <==> Bit(a, k) != Bit(b, k)
  {
    XorBitsBitwise(a, b, 8, k);
  }

  function Masked(payload: Bytes, key: Bytes): (r: Bytes)
    requires |key| == 4
    ensures |r| == |payload|
    ensures forall i :: 0 <= i < |r| ==> r[i] == Xor(payload[i], key[i % 4])
  {
    seq(|payload|, i requires 0 <= i < |payload| => Xor(payload[i], key[i % 4]))
  }

  /** Masking and unmasking are the same operation. */
  lemma {:induction false} MaskedTwice(payload: Bytes, key: Bytes)
    requires |key| == 4
    ensures Masked(Masked(payload, key), key) == payload
  {
    var r := Masked(Masked(payload, key), key);
    forall i | 0 <= i < |payload| ensures r[i] == payload[i] {
      XorTwice(payload[i], key[i % 4]);
    }
  }

  // ---- section 5.2 and 5.3 of RFC 6455 ----

  /** Two bytes in network order. */
  function Pair(high: Byte, low: Byte): nat {
    var h: int, l: int := high, low;
    256 * h + l
  }

  /** A frame as laid out on the wire (section 5.2), its payload not yet unmasked. */
  datatype RawFrame =
    | Short
    | Raw(fin: bool, reserved: nat, opcode: nat, key: Option<Bytes>, data: Bytes, used: nat)

  /** The first frame in `b`: the FIN bit, three reserved bits and a four-bit opcode; the
      mask bit and a seven-bit length, extended to 16 bits by 126 and to 64 bits by 127;
      a four-byte key if masked; the payload. */
  function RfcLayout(b: Bytes): (r: RawFrame)
    ensures r.Raw? && r.key.Some? ==> |r.key.value| == 4
  {
    if |b| < 2 then Short
    else
      var short := b[1] % 128;
      var extra := if short == 126 then 2 else if short == 127 then 8 else 0;
      if |b| < 2 + extra then Short
      else
        var length := if extra == 0 then short else if extra == 2 then Pair(b[2], b[3]) else FromBigEndian(b[2..10]);
        var masked := b[1] >= 128;
        var start := 2 + extra + (if masked then 4 else 0);
        if |b| < start + length then Short
        else Raw(b[0] >= 128, (b[0] / 16) % 8, b[0] % 16,
                 if masked then Some(b[start - 4..start]) else None, b[start..start + length], start + length)
  }

  /** The `k` low bits of `a`, each flipped where `b` has a bit. */
  function Flipped(a: nat, b: nat, k: nat): (r: nat)
    ensures r < Pow2(k)
  {
    if k == 0 then 0 else Flipped(a, b, k - 1) + (if Bit(a, k - 1) == Bit(b, k - 1) then 0 else Pow2(k - 1))
  }

  /** Octet `i` of the payload is octet `i` of the data with the bits of octet `i` modulo 4
      of the key flipped (section 5.3). */
  function Unmask(data: Bytes, key: Bytes): Bytes
    requires |key| == 4
  {
    Pow2Eight();
    seq(|data|, i requires 0 <= i < |data| => Flipped(data[i], key[i % 4], 8))
  }

  lemma {:induction false} FlippedTop(a: nat, b: nat, k: nat)
    ensures Flipped(a, b, k + 1) == 2 * Flipped(a / 2, b / 2, k) + (if a % 2 == b % 2 then 0 else 1)
  {
    if k == 0 {
      LowBit(a);
      LowBit(b);
      assert Pow2(0) == 1;
      assert Flipped(a, b, 0) == 0 && Flipped(a / 2, b / 2, 0) == 0;
    } else {
      FlippedTop(a, b, k - 1);
      BitOfHalf(a, k - 1);
      BitOfHalf(b, k - 1);
    }
  }

  lemma {:induction false} XorTop(a: nat, b: nat, k: nat)
    requires k > 0
    ensures XorBits(a, b, k) == 2 * XorBits(a / 2, b / 2, k - 1) + (if a % 2 == b % 2 then 0 else 1)
  {
    assert a % 2 < 2 && b % 2 < 2;
  }

  /** The bytewise exclusive or of the client flips the same bits. */
  lemma {:induction false} XorFlips(a: nat, b: nat, k: nat)
    ensures XorBits(a, b, k) == Flipped(a, b, k)
  {
    if k > 0 {
      var n: nat := k - 1;
      XorFlips(a / 2, b / 2, n);
      XorTop(a, b, k);
      FlippedTop(a, b, n);
      assert n + 1 == k;
    }
  }

  lemma {:induction false} UnmaskIsMasked(data: Bytes, key: Bytes)
    requires |key| == 4
    ensures Unmask(data, key) == Masked(data, key)
  {
    forall i | 0 <= i < |data| ensures Unmask(data, key)[i] == Masked(data, key)[i] {
      XorFlips(data[i], key[i % 4], 8);
    }
  }

  datatype RfcFrame =
    | Incomplete
    | RfcFrame(fin: bool, reserved: nat, opcode: nat, masked: bool, payload: Bytes, used: nat)

  /** The frame with its payload unmasked (section 5.3). */
  function RfcParse(b: Bytes): RfcFrame {
    match RfcLayout(b)
    case Short => Incomplete
    case Raw(fin, reserved, opcode, key, data, used) =>
      RfcFrame(fin, reserved, opcode, key.Some?, if key.Some? then Unmask(data, key.value) else data, used)
  }

  // ---- what the client writes ----

  function LengthField(n: nat, masked: bool): (r: Bytes)
    requires n <= MAX_PAYLOAD_BYTES
  {
    var bit := if masked then 128 else 0;
    if n <= 125 then [bit + n] else [bit + 126, n / 256, n % 256]
  }

  function ClientEncode(f: Frame, key: Bytes): Bytes
    requires Legal(f) && |key| == 4
  {
    ClientBytes(f.opcode, Masked(f.payload, key), key)
  }

  /** `writeClientFrame`: what reaches the output, or an I/O exception. */
  method WriteClientFrame(opcode: int, payload: Bytes, key: Bytes) returns (output: Option<Bytes>)
    requires |key| == 4
    ensures Legal(Frame(opcode, payload)) ==> output == Some(ClientEncode(Frame(opcode, payload), key))
    ensures !Legal(Frame(opcode, payload)) ==> output.None?
  {
    if !Legal(Frame(opcode, payload)) {
      return None;
    }
    var bytes: Bytes := [128 + opcode];
    var length := |payload|;
    if length <= 125 {
      bytes := bytes + [128 + length];
    } else {
      bytes := bytes + [128 + 126];
      bytes := bytes + [length / 256];
      bytes := bytes + [length % 256];
    }
    bytes := bytes + key;
    var encoded := new Byte[length](_ => 0);
    for index := 0 to length
      invariant forall i :: 0 <= i < index ==> encoded[i] == Xor(payload[i], key[i % 4])
    {
      encoded[index] := Xor(payload[index], key[index % 4]);
    }
    assert encoded[..] == Masked(payload, key);
    assert bytes == [128 + opcode] + LengthField(length, true) + key;
    return Some(bytes + encoded[..]);
  }

  /** A decoder written from the standard recovers opcode and payload from every frame
      the client writes, for every mask, and consumes exactly that frame. */
  lemma {:induction false} RfcReadsClientFrame(f: Frame, key: Bytes, rest: Bytes)
    requires Legal(f) && |key| == 4
    ensures var e := ClientEncode(f, key);
            RfcParse(e + rest) == RfcFrame(true, 0, f.opcode, true, f.payload, |e|)
  {
    ClientLayout(f.opcode, Masked(f.payload, key), key, rest);
    UnmaskIsMasked(Masked(f.payload, key), key);
    MaskedTwice(f.payload, key);
  }

  function ClientBytes(opcode: int, data: Bytes, key: Bytes): Bytes
    requires 0 <= opcode < 16 && |data| <= MAX_PAYLOAD_BYTES
  {
    [128 + opcode] + LengthField(|data|, true) + key + data
  }

  lemma {:induction false} ClientLayout(opcode: int, data: Bytes, key: Bytes, rest: Bytes)
    requires 0 <= opcode < 16 && |data| <= MAX_PAYLOAD_BYTES && |key| == 4
    ensures var e := ClientBytes(opcode, data, key);
            RfcLayout(e + rest) == Raw(true, 0, opcode, Some(key), data, |e|)
  {
    var b, n := ClientBytes(opcode, data, key) + rest, |data|;
    var at := if n <= 125 then 2 else 4;
    assert b[0] == 128 + opcode;
    if n > 125 {
      assert b[1] == 254 && b[2] == n / 256 && b[3] == n % 256;
    } else {
      assert b[1] == 128 + n;
    }
    assert b[at..at + 4] == key;
    assert b[at + 4..at + 4 + n] == data;
  }

  // ---- what the client accepts ----

  function ServerEncode(f: Frame): Bytes
    requires Legal(f)
  {
    [128 + f.opcode] + LengthField(|f.payload|, false) + f.payload
  }

  datatype ServerRead = EndOfStream | Invalid | Accepted(frame: Frame, used: nat)

  /** `readServerFrame` as a function of the bytes that are left. */
  function ParseServer(b: Bytes): ServerRead {
    if |b| < 2 then EndOfStream
    else if b[0] < 128 || (b[0] / 16) % 8 != 0 || b[1] >= 128 then Invalid
    else if b[1] == 127 then Invalid
    else if b[1] < 126 then ParsePayload(b, b[0] % 16, b[1], 2)
    else if |b| < 4 then EndOfStream
    else
      var length := Pair(b[2], b[3]);
      if length <= 125 then Invalid else ParsePayload(b, b[0] % 16, length, 4)
  }

  function ParsePayload(b: Bytes, opcode: int, length: nat, start: nat): ServerRead {
    if length > MAX_PAYLOAD_BYTES || (opcode >= CLOSE && length > 125) then Invalid
    else if |b| < start + length then EndOfStream
    else
      var f := Frame(opcode, b[start..start + length]);
      if Legal(f) then Accepted(f, start + length) else Invalid
  }

  lemma {:induction false} ReadInvertsEncoding(f: Frame, rest: Bytes)
    requires Legal(f)
    ensures ParseServer(ServerEncode(f) + rest) == Accepted(f, |ServerEncode(f)|)
  {
    var e := ServerEncode(f);
    var b, n := e + rest, |f.payload|;
    var start := if n <= 125 then 2 else 4;
    assert b[0] == 128 + f.opcode;
    if n <= 125 {
      assert b[1] == n;
    } else {
      assert b[1] == 126 && b[2] == n / 256 && b[3] == n % 256;
    }
    assert b[start..start + n] == f.payload;
  }

  lemma {:induction false} ReadIsSound(b: Bytes)
    requires ParseServer(b).Accepted?
    ensures var Accepted(f, used) := ParseServer(b);
            Legal(f) && used <= |b| && ServerEncode(f) == b[..used]
  {
    var Accepted(f, used) := ParseServer(b);
    if b[1] < 126 {
      assert b[..used] == [b[0]] + [b[1]] + b[2..used];
    } else {
      assert b[..used] == [b[0]] + [b[1], b[2], b[3]] + b[4..used];
    }
  }

  /** The client accepts exactly the unmasked, minimally encoded legal frames. */
  lemma {:induction false} AcceptsExactlyEncodings(b: Bytes, f: Frame, used: nat)
    ensures ParseServer(b) == Accepted(f, used)
       <==> Legal(f) && used == |ServerEncode(f)| && ServerEncode(f) <= b
  {
    if ParseServer(b) == Accepted(f, used) {
      ReadIsSound(b);
    }
    if Legal(f) && used == |ServerEncode(f)| && ServerEncode(f) <= b {
      ReadInvertsEncoding(f, b[used..]);
      assert b == ServerEncode(f) + b[used..];
    }
  }

  lemma {:induction false} ShortLayout(opcode: int, data: Bytes, rest: Bytes)
    requires 0 <= opcode < 16 && |data| <= 125
    ensures RfcLayout([128 + opcode, |data|] + data + rest) == Raw(true, 0, opcode, None, data, 2 + |data|)
  {
    var b := [128 + opcode, |data|] + data + rest;
    assert b[0] == 128 + opcode && b[1] == |data|;
    assert b[2..2 + |data|] == data;
  }

  lemma {:induction false} LongLayout(opcode: int, data: Bytes, rest: Bytes)
    requires 0 <= opcode < 16 && 125 < |data| <= MAX_PAYLOAD_BYTES
    ensures RfcLayout([128 + opcode, 126, |data| / 256, |data| % 256] + data + rest)
         == Raw(true, 0, opcode, None, data, 4 + |data|)
  {
    var n := |data|;
    var b := [128 + opcode, 126, n / 256, n % 256] + data + rest;
    assert b[0] == 128 + opcode && b[1] == 126 && Pair(b[2], b[3]) == n;
    assert b[4..4 + n] == data;
  }

  lemma {:induction false} ServerLayout(opcode: int, data: Bytes, rest: Bytes)
    requires 0 <= opcode < 16 && |data| <= MAX_PAYLOAD_BYTES
    ensures var e := [128 + opcode] + LengthField(|data|, false) + data;
            RfcLayout(e + rest) == Raw(true, 0, opcode, None, data, |e|)
  {
    var n := |data|;
    if n <= 125 {
      ShortLayout(opcode, data, rest);
      assert [128 + opcode] + LengthField(n, false) == [128 + opcode, n];
    } else {
      LongLayout(opcode, data, rest);
      assert [128 + opcode] + LengthField(n, false) == [128 + opcode, 126, n / 256, n % 256];
    }
  }

  /** What it accepts, the standard's reading agrees with. */
  lemma {:induction false} AcceptedFramesAreRfcFrames(b: Bytes)
    requires ParseServer(b).Accepted?
    ensures var Accepted(f, used) := ParseServer(b);
            RfcParse(b) == RfcFrame(true, 0, f.opcode, false, f.payload, used)
  {
    var Accepted(f, used) := ParseServer(b);
    ReadIsSound(b);
    ServerLayout(f.opcode, f.payload, b[used..]);
    assert b == b[..used] + b[used..];
  }

  /** A frame cut short reads as the end of the stream, never as another frame. */
  lemma {:induction false} ProperPrefixIsEndOfStream(f: Frame, prefix: Bytes)
    requires Legal(f) && prefix < ServerEncode(f)
    ensures ParseServer(prefix) == EndOfStream
  {
    var e := ServerEncode(f);
    assert forall i :: 0 <= i < |prefix| ==> prefix[i] == e[i];
  }

  /** What reads as the end of the stream, the standard's reading finds incomplete too. */
  lemma {:induction false} EndOfStreamIsIncomplete(b: Bytes)
    requires ParseServer(b) == EndOfStream
    ensures RfcParse(b) == Incomplete
  {
  }

  /** What is refused is refused whatever follows. */
  lemma {:induction false} InvalidIsFinal(b: Bytes, more: Bytes)
    requires ParseServer(b) == Invalid
    ensures ParseServer(b + more) == Invalid
  {
    var whole := b + more;
    assert forall i :: 0 <= i < |b| ==> whole[i] == b[i];
    if b[1] < 126 && |b| >= 2 + b[1] {
      assert whole[2..2 + b[1]] == b[2..2 + b[1]];
    } else if b[1] == 126 && |b| >= 4 && |b| >= 4 + Pair(b[2], b[3]) {
      var n := Pair(b[2], b[3]);
      assert whole[4..4 + n] == b[4..4 + n];
    }
  }

  // ---- streams of frames ----

  ghost predicate AllLegal(fs: seq<Frame>) {
    forall i :: 0 <= i < |fs| ==> Legal(fs[i])
  }

  ghost function EncodeAll(fs: seq<Frame>): Bytes
    requires AllLegal(fs)
  {
    if fs == [] then [] else ServerEncode(fs[0]) + EncodeAll(fs[1..])
  }

  /** At most one frame begins at a given place. */
  lemma {:induction false} FirstUnique(b: Bytes, f: Frame, g: Frame)
    requires Legal(f) && Legal(g) && ServerEncode(f) <= b && ServerEncode(g) <= b
    ensures f == g
  {
    AcceptsExactlyEncodings(b, f, |ServerEncode(f)|);
    AcceptsExactlyEncodings(b, g, |ServerEncode(g)|);
  }

  /** Frames split in one way only: equal streams are the same frames. */
  lemma {:induction false} SplitIsUnique(fs: seq<Frame>, gs: seq<Frame>)
    requires AllLegal(fs) && AllLegal(gs) && EncodeAll(fs) == EncodeAll(gs)
    ensures fs == gs
  {
    if fs != [] && gs != [] {
      var b := EncodeAll(fs);
      FirstUnique(b, fs[0], gs[0]);
      var e := ServerEncode(fs[0]);
      assert b[|e|..] == EncodeAll(fs[1..]) && b[|e|..] == EncodeAll(gs[1..]);
      SplitIsUnique(fs[1..], gs[1..]);
      assert fs == [fs[0]] + fs[1..] && gs == [gs[0]] + gs[1..];
    } else {
      EncodingNotEmpty(fs);
      EncodingNotEmpty(gs);
    }
  }

  lemma {:induction false} EncodingNotEmpty(fs: seq<Frame>)
    requires AllLegal(fs)
    ensures fs == [] <==> EncodeAll(fs) == []
  {
    if fs != [] {
      assert |ServerEncode(fs[0])| > 0;
    }
  }

  // ---- reading from a stream ----

  /** An input stream under an arbitrary schedule of short reads; a scheduled zero is
      a read that delivers nothing. */
  class InputStream {
    const data: Bytes
    var position: nat
    var schedule: seq<nat>

    ghost predicate Valid()
      reads this
    {
      position <= |data|
    }

    ghost function Rest(): Bytes
      reads this
      requires Valid()
    {
      data[position..]
    }

    constructor (data: Bytes, schedule: seq<nat>)
      ensures Valid() && Rest() == data
    {
      this.data, position, this.schedule := data, 0, schedule;
    }

    /** `read()`; `None` at the end. */
    method ReadByte() returns (r: Option<Byte>)
      requires Valid()
      modifies this
      ensures Valid()
      ensures old(Rest()) == [] ==> r.None? && Rest() == []
      ensures old(Rest()) != [] ==> r == Some(old(Rest())[0]) && Rest() == old(Rest())[1..]
    {
      if position == |data| {
        return None;
      }
      r := Some(data[position]);
      position := position + 1;
    }

    /** `read(buffer, offset, length)`; `None` at the end. */
    method ReadSome(want: nat) returns (r: Option<Bytes>)
      requires Valid() && want > 0
      modifies this
      ensures Valid()
      ensures r.None? <==> old(Rest()) == []
      ensures r.None? ==> Rest() == []
      ensures r.Some? ==> |r.value| <= want && old(Rest()) == r.value + Rest()
      ensures r.Some? && r.value == [] ==> |schedule| < |old(schedule)|
      ensures |schedule| <= |old(schedule)|
    {
      if position == |data| {
        return None;
      }
      var count := Min(want, |data| - position);
      if schedule != [] {
        count := Min(count, schedule[0]);
        schedule := schedule[1..];
      }
      var start := position;
      position := position + count;
      assert data[start..] == data[start..position] + data[position..];
      return Some(data[start..position]);
    }
  }

  /** `readExact`: loops over short reads until the buffer is full. */
  method ReadExact(input: InputStream, length: nat) returns (r: Option<Bytes>)
    requires input.Valid()
    modifies input
    ensures input.Valid()
    ensures r.Some? <==> length <= |old(input.Rest())|
    ensures r.Some? ==> r.value == old(input.Rest())[..length] && input.Rest() == old(input.Rest())[length..]
  {
    var bytes := new Byte[length](_ => 0);
    var offset := 0;
    ghost var all := input.Rest();
    while offset < length
      invariant fresh(bytes) && bytes.Length == length && offset <= length
      invariant input.Valid() && all == bytes[..offset] + input.Rest()
      decreases length - offset, |input.schedule|
    {
      var got := input.ReadSome(length - offset);
      if got.None? {
        return None;
      }
      ghost var before := bytes[..offset];
      assert all == before + (got.value + input.Rest());
      StoreAt(bytes, offset, got.value);
      offset := offset + |got.value|;
      assert bytes[..offset] == before + got.value;
      ConcatAssociative(before, got.value, input.Rest());
    }
    assert bytes[..offset] == bytes[..];
    return Some(bytes[..]);
  }

  /** The part of `readServerFrame` after the length is known. */
  method ReadPayload(input: InputStream, opcode: int, length: nat, start: nat, ghost b: Bytes) returns (r: ServerRead)
    requires input.Valid() && start <= |b| && input.Rest() == b[start..]
    modifies input
    ensures input.Valid() && r == ParsePayload(b, opcode, length, start)
    ensures r.Accepted? ==> r.used <= |b| && input.Rest() == b[r.used..]
  {
    if length > MAX_PAYLOAD_BYTES || (opcode >= CLOSE && length > 125) {
      return Invalid;
    }
    var payload := ReadExact(input, length);
    if payload.None? {
      return EndOfStream;
    }
    assert payload.value == b[start..start + length] && input.Rest() == b[start + length..];
    if !Legal(Frame(opcode, payload.value)) {
      return Invalid;
    }
    return Accepted(Frame(opcode, payload.value), start + length);
  }

  /** `readServerFrame` under any schedule of short reads does what `ParseServer` says
      about the bytes that were left, and consumes exactly the frame it accepts. */
  method ReadServerFrame(input: InputStream) returns (r: ServerRead)
    requires input.Valid()
    modifies input
    ensures input.Valid() && r == ParseServer(old(input.Rest()))
    ensures r.Accepted? ==> r.used <= |old(input.Rest())| && input.Rest() == old(input.Rest())[r.used..]
  {
    ghost var b := input.Rest();
    var first := input.ReadByte();
    if first.None? {
      return EndOfStream;
    }
    var second := input.ReadByte();
    if second.None? {
      return EndOfStream;
    }
    assert input.Rest() == b[2..] && first.value == b[0] && second.value == b[1];
    if first.value < 128 || (first.value / 16) % 8 != 0 || second.value >= 128 {
      return Invalid;
    }
    var opcode := first.value % 16;
    if second.value == 127 {
      return Invalid;
    }
    if second.value < 126 {
      r := ReadPayload(input, opcode, second.value, 2, b);
      return;
    }
    var high := input.ReadByte();
    if high.None? {
      return EndOfStream;
    }
    var low := input.ReadByte();
    if low.None? {
      return EndOfStream;
    }
    assert input.Rest() == b[4..] && high.value == b[2] && low.value == b[3];
    var length := Pair(high.value, low.value);
    if length <= 125 {
      return Invalid;
    }
    r := ReadPayload(input, opcode, length, 4, b);
  }

  lemma {:induction false} NextOfStream(fs: seq<Frame>, rest: Bytes)
    requires AllLegal(fs) && fs != []
    ensures var b := EncodeAll(fs) + rest;
            && ParseServer(b).Accepted? && ParseServer(b).frame == fs[0] && ParseServer(b).used <= |b|
            && b[ParseServer(b).used..] == EncodeAll(fs[1..]) + rest
  {
    var e := ServerEncode(fs[0]);
    ConcatAssociative(e, EncodeAll(fs[1..]), rest);
    ReadInvertsEncoding(fs[0], EncodeAll(fs[1..]) + rest);
  }

  /** Reading frame after frame splits any concatenation of legal frames back into
      exactly those frames, under any schedule of short reads, and leaves what follows. */
  method ReadBack(input: InputStream, n: nat, ghost fs: seq<Frame>, ghost rest: Bytes) returns (r: seq<Frame>)
    requires input.Valid() && n == |fs| && AllLegal(fs) && input.Rest() == EncodeAll(fs) + rest
    modifies input
    ensures input.Valid() && r == fs && input.Rest() == rest
  {
    r := [];
    ghost var left := fs;
    for i := 0 to n
      invariant input.Valid() && |left| == n - i && r + left == fs
      invariant AllLegal(left) && input.Rest() == EncodeAll(left) + rest
    {
      ghost var head, tail := left[0], left[1..];
      assert left == [head] + tail;
      NextOfStream(left, rest);
      var read := ReadServerFrame(input);
      assert read.frame == head && input.Rest() == EncodeAll(tail) + rest;
      ConcatAssociative(r, [head], tail);
      r := r + [read.frame];
      left := tail;
    }
  }
}

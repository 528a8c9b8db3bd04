/** The ANCS protocol consumer: one outstanding attribute request, a bounded
    queue of notification UIDs, a replay window, and reassembly of Data Source
    fragments. The state machine is given by functions on `Consumer`; the class
    `AncsProtocolConsumer` updates its fields in place and is proved to follow it. */
module AncsTransport {
  import opened Common

  /** A notification UID: four opaque bytes. */
  datatype Uid = Uid(a: Byte, b: Byte, c: Byte, d: Byte) {
    function Octets(): (r: Bytes)
      ensures |r| == 4
    {
      [a, b, c, d]
    }
  }

  function UidAt(bytes: Bytes, at: nat): (u: Uid)
    requires at + 4 <= |bytes|
    ensures u.Octets() == bytes[at..at + 4]
  {
    Uid(bytes[at], bytes[at + 1], bytes[at + 2], bytes[at + 3])
  }

  const MAX_RESPONSE_BYTES := 4096
  const MAX_QUEUED := 32
  const MAX_COMPLETED := 64

  /** "com.apple.MobileSMS" */
  const MESSAGES_APP: Bytes :=
    [99, 111, 109, 46, 97, 112, 112, 108, 101, 46, 77, 111, 98, 105, 108, 101, 83, 77, 83]

  const ATTRIBUTE_IDS: Bytes := [0, 1, 2, 4, 5, 6, 7]

  // ---- wire formats ----

  datatype EventKind = Added | Modified | Removed

  datatype SourceEvent = SourceEvent(kind: EventKind, uid: Uid)

  function ParseSourceEvent(value: Bytes): (r: Option<SourceEvent>)
    ensures r.Some? <==> |value| == 8 && value[0] <= 2
    ensures r.Some? ==> r.value.uid.Octets() == value[4..]
    ensures r.Some? ==> (r.value.kind.Removed? <==> value[0] == 2)
  {
    if |value| != 8 || value[0] > 2 then None
    else
      var kind := if value[0] == 0 then Added else if value[0] == 1 then Modified else Removed;
      Some(SourceEvent(kind, UidAt(value, 4)))
  }

  /** An attribute ID with its 256-byte limit. */
  function Limited(id: Byte): (r: Bytes)
    ensures |r| == 3
  {
    [id] + LittleEndian16(256)
  }

  /** The attributes asked for; title and subtitle carry a limit. */
  function AttributeList(): (r: Bytes)
    ensures |r| == 11
  {
    [0] + (Limited(1) + (Limited(2) + [4, 5, 6, 7]))
  }

  /** Get Notification Attributes: command 0, the UID, the attribute list. */
  function AttributeRequest(uid: Uid): (r: Bytes)
    ensures |r| == 16 && UidAt(r, 1) == uid && r[5..] == AttributeList()
  {
    [0] + uid.Octets() + AttributeList()
  }

  /** The attribute list of a request as the notification provider reads it:
      IDs 1, 2 and 3 are followed by a two-byte length limit. */
  function RequestedIds(attributes: Bytes): Bytes {
    if attributes == [] then []
    else if 1 <= attributes[0] <= 3 then
      if |attributes| < 3 then [] else [attributes[0]] + RequestedIds(attributes[3..])
    else [attributes[0]] + RequestedIds(attributes[1..])
  }

  /** A request asks for exactly the attributes the response parser expects, in
      that order, and so never for the message body (attribute 3). */
  lemma {:induction false} RequestAsksForParsedAttributes(uid: Uid)
    ensures RequestedIds(AttributeRequest(uid)[5..]) == ATTRIBUTE_IDS
    ensures 3 !in RequestedIds(AttributeRequest(uid)[5..])
  {
    var d: Bytes := [4, 5, 6, 7];
    RequestedIdsPlain(d);
    LimitedThen(2, d);
    LimitedThen(1, Limited(2) + d);
    PlainThen(0, Limited(1) + (Limited(2) + d));
  }

  lemma {:induction false} LimitedThen(id: Byte, rest: Bytes)
    requires 1 <= id <= 3
    ensures RequestedIds(Limited(id) + rest) == [id] + RequestedIds(rest)
  {
    assert (Limited(id) + rest)[3..] == rest;
  }

  lemma {:induction false} PlainThen(id: Byte, rest: Bytes)
    requires !(1 <= id <= 3)
    ensures RequestedIds([id] + rest) == [id] + RequestedIds(rest)
  {
    assert ([id] + rest)[1..] == rest;
  }

  lemma {:induction false} RequestedIdsPlain(ids: Bytes)
    requires forall i :: 0 <= i < |ids| ==> !(1 <= ids[i] <= 3)
    ensures RequestedIds(ids) == ids
  {
    if ids != [] {
      RequestedIdsPlain(ids[1..]);
    }
  }

  /** Every value is short enough for its 16-bit length. */
  ghost predicate FieldValues(values: seq<Bytes>) {
    values == [] || (|values[0]| < 0x1_0000 && FieldValues(values[1..]))
  }

  /** One attribute: its ID, its length in little-endian order, its bytes. */
  function Field(id: Byte, value: Bytes): (r: Bytes)
    requires |value| < 0x1_0000
    ensures |r| == 3 + |value|
    ensures r[0] == id && FromLittleEndian16(r[1], r[2]) == |value| && r[3..] == value
  {
    [id] + LittleEndian16(|value|) + value
  }

  ghost function EncodeFields(values: seq<Bytes>, ids: Bytes): Bytes
    requires |values| == |ids| && FieldValues(values)
  {
    if ids == [] then [] else Field(ids[0], values[0]) + EncodeFields(values[1..], ids[1..])
  }

  /** A Data Source response as the notification provider sends it. */
  ghost function EncodeResponse(uid: Uid, values: seq<Bytes>): Bytes
    requires |values| == |ATTRIBUTE_IDS| && FieldValues(values)
  {
    [0] + uid.Octets() + EncodeFields(values, ATTRIBUTE_IDS)
  }

  datatype Parsed = Unparsed | Fields(values: seq<Bytes>, used: nat)

  /** Reads one length-prefixed field per expected ID; `Unparsed` when bytes
      are missing or an ID differs. `used` counts the bytes consumed. */
  function ParseFields(data: Bytes, ids: Bytes): Parsed {
    if ids == [] then Fields([], 0)
    else if |data| < 3 || data[0] != ids[0] then Unparsed
    else
      var end := 3 + FromLittleEndian16(data[1], data[2]);
      if |data| < end then Unparsed
      else match ParseFields(data[end..], ids[1..])
        case Unparsed => Unparsed
        case Fields(values, used) => Fields([data[3..end]] + values, end + used)
  }

  function ParseResponse(data: Bytes, ids: Bytes): Parsed {
    if |data| < 5 || data[0] != 0 then Unparsed
    else match ParseFields(data[5..], ids)
      case Unparsed => Unparsed
      case Fields(values, used) => Fields(values, 5 + used)
  }

  function ParseAttributes(data: Bytes): Parsed {
    ParseResponse(data, ATTRIBUTE_IDS)
  }

  /** Splitting a byte string at a field inverts `Field`. */
  lemma {:induction false} FieldAtFront(data: Bytes, id: Byte, value: Bytes, rest: Bytes)
    requires |value| < 0x1_0000
    ensures data == Field(id, value) + rest
       <==> && |data| >= 3 && data[0] == id && FromLittleEndian16(data[1], data[2]) == |value|
            && |data| >= 3 + |value| && data[3..3 + |value|] == value && data[3 + |value|..] == rest
  {
    var f := Field(id, value);
    if data == f + rest {
      assert data[..|f|] == f && data[|f|..] == rest;
      assert data[3..|f|] == f[3..];
    }
    if |data| >= |f| && data[0] == id && FromLittleEndian16(data[1], data[2]) == |value|
       && data[3..|f|] == value && data[|f|..] == rest {
      LittleEndian16Inverse(data[1], data[2]);
      assert data[..|f|] == f;
      assert data == data[..|f|] + data[|f|..];
    }
  }

  /** A field at the front of `data`, and `n` bytes behind it. */
  lemma {:induction false} FieldThenRest(data: Bytes, id: Byte, end: nat, n: nat)
    requires |data| >= 3 && data[0] == id && end == 3 + FromLittleEndian16(data[1], data[2]) && end + n <= |data|
    ensures Field(id, data[3..end]) + data[end..][..n] == data[..end + n]
  {
    var whole := data[..end + n];
    assert whole[3..end] == data[3..end] && whole[end..] == data[end..][..n];
    FieldAtFront(whole, id, data[3..end], data[end..][..n]);
  }

  lemma {:induction false} ParseFieldsSound(data: Bytes, ids: Bytes)
    requires ParseFields(data, ids).Fields?
    ensures var Fields(values, used) := ParseFields(data, ids);
            && |values| == |ids| && FieldValues(values)
            && used <= |data| && EncodeFields(values, ids) == data[..used]
  {
    if ids != [] {
      var end := 3 + FromLittleEndian16(data[1], data[2]);
      ParseFieldsSound(data[end..], ids[1..]);
      var Fields(rest, n) := ParseFields(data[end..], ids[1..]);
      FieldThenRest(data, ids[0], end, n);
      var values := [data[3..end]] + rest;
      assert values[0] == data[3..end] && values[1..] == rest;
    }
  }

  lemma {:induction false} ParseFieldsStep(data: Bytes, ids: Bytes, value: Bytes, rest: Bytes)
    requires ids != [] && |value| < 0x1_0000 && data == Field(ids[0], value) + rest
    ensures ParseFields(data, ids)
         == match ParseFields(rest, ids[1..])
            case Unparsed => Unparsed
            case Fields(values, used) => Fields([value] + values, 3 + |value| + used)
  {
    FieldAtFront(data, ids[0], value, rest);
  }

  lemma {:induction false} ParseFieldsInverts(values: seq<Bytes>, ids: Bytes, tail: Bytes)
    requires |values| == |ids| && FieldValues(values)
    ensures ParseFields(EncodeFields(values, ids) + tail, ids)
         == Fields(values, |EncodeFields(values, ids)|)
  {
    if ids != [] {
      ParseFieldsInverts(values[1..], ids[1..], tail);
      var rest := EncodeFields(values[1..], ids[1..]);
      ConcatAssociative(Field(ids[0], values[0]), rest, tail);
      ParseFieldsStep(EncodeFields(values, ids) + tail, ids, values[0], rest + tail);
      assert [values[0]] + values[1..] == values;
    }
  }

  lemma {:induction false} HeaderThenRest(data: Bytes, n: nat)
    requires 5 <= n <= |data|
    ensures data[..n] == [data[0]] + data[1..5] + data[5..][..n - 5]
  {
  }

  lemma {:induction false} ParseResponseSound(data: Bytes, ids: Bytes)
    requires ParseResponse(data, ids).Fields?
    ensures var Fields(values, used) := ParseResponse(data, ids);
            && |values| == |ids| && FieldValues(values) && 5 <= used <= |data|
            && data[..used] == [0] + data[1..5] + EncodeFields(values, ids)
  {
    ParseFieldsSound(data[5..], ids);
    HeaderThenRest(data, ParseResponse(data, ids).used);
  }

  lemma {:induction false} ParseResponseInverts(uid: Uid, values: seq<Bytes>, ids: Bytes, tail: Bytes)
    requires |values| == |ids| && FieldValues(values)
    ensures ParseResponse([0] + uid.Octets() + EncodeFields(values, ids) + tail, ids)
         == Fields(values, 5 + |EncodeFields(values, ids)|)
  {
    ParseFieldsInverts(values, ids, tail);
    var header: Bytes := [0] + uid.Octets();
    ConcatAssociative(header, EncodeFields(values, ids), tail);
    assert (header + (EncodeFields(values, ids) + tail))[5..] == EncodeFields(values, ids) + tail;
  }

  /** A response that parses still parses, to the same values, when more follows. */
  lemma {:induction false} ParseResponseExtends(data: Bytes, ids: Bytes, more: Bytes)
    requires ParseResponse(data, ids).Fields?
    ensures ParseResponse(data + more, ids) == ParseResponse(data, ids)
    ensures ParseResponse(data, ids).used <= |data|
  {
    ParseResponseSound(data, ids);
    var Fields(values, used) := ParseResponse(data, ids);
    ParseResponseInverts(UidAt(data, 1), values, ids, data[used..] + more);
    assert data + more == data[..used] + (data[used..] + more);
  }

  /** The parser accepts exactly the byte strings that begin with an encoded
      response; what it returns is what was encoded. The UID bytes are not read. */
  lemma {:induction false} ParseAcceptsExactlyEncodings(data: Bytes, values: seq<Bytes>, used: nat)
    ensures ParseAttributes(data) == Fields(values, used)
       <==> && |values| == |ATTRIBUTE_IDS| && FieldValues(values) && 5 <= used <= |data|
            && data[..used] == EncodeResponse(UidAt(data, 1), values)
  {
    if ParseAttributes(data) == Fields(values, used) {
      ParseResponseSound(data, ATTRIBUTE_IDS);
    }
    if |values| == |ATTRIBUTE_IDS| && FieldValues(values) && 5 <= used <= |data|
       && data[..used] == EncodeResponse(UidAt(data, 1), values) {
      ParseResponseInverts(UidAt(data, 1), values, ATTRIBUTE_IDS, data[used..]);
      assert data == data[..used] + data[used..];
    }
  }

  lemma {:induction false} ParseWhole(uid: Uid, values: seq<Bytes>, tail: Bytes)
    requires |values| == |ATTRIBUTE_IDS| && FieldValues(values)
    ensures var e := EncodeResponse(uid, values);
            ParseAttributes(e + tail) == Fields(values, |e|)
  {
    var e := EncodeResponse(uid, values);
    var data := e + tail;
    assert UidAt(data, 1) == uid;
    assert data[..|e|] == e;
    ParseAcceptsExactlyEncodings(data, values, |e|);
  }

  /** No proper prefix of a response parses. */
  lemma {:induction false} ParseFailsOnProperPrefix(uid: Uid, values: seq<Bytes>, prefix: Bytes)
    requires |values| == |ATTRIBUTE_IDS| && FieldValues(values)
    requires prefix < EncodeResponse(uid, values)
    ensures ParseAttributes(prefix).Unparsed?
  {
    var e := EncodeResponse(uid, values);
    ParseWhole(uid, values, []);
    assert e + [] == e;
    if ParseAttributes(prefix).Fields? {
      assert prefix + e[|prefix|..] == e;
      ParseResponseExtends(prefix, ATTRIBUTE_IDS, e[|prefix|..]);
    }
  }

  /** `ParseFields` at an offset, after the fields already read. */
  ghost function ParseRest(data: Bytes, ids: Bytes, offset: nat, values: seq<Bytes>): Parsed
    requires offset <= |data|
  {
    match ParseFields(data[offset..], ids)
    case Unparsed => Unparsed
    case Fields(rest, used) => Fields(values + rest, offset + used)
  }

  lemma {:induction false} ParseRestStep(data: Bytes, ids: Bytes, offset: nat, values: seq<Bytes>)
    requires offset <= |data| && ids != []
    ensures
      if offset + 2 < |data| && data[offset] == ids[0]
         && offset + 3 + FromLittleEndian16(data[offset + 1], data[offset + 2]) <= |data|
      then var end := offset + 3 + FromLittleEndian16(data[offset + 1], data[offset + 2]);
           ParseRest(data, ids, offset, values)
           == ParseRest(data, ids[1..], end, values + [data[offset + 3..end]])
      else ParseRest(data, ids, offset, values).Unparsed?
  {
    var here := data[offset..];
    if |here| >= 3 && here[0] == ids[0] {
      var end := 3 + FromLittleEndian16(here[1], here[2]);
      if end <= |here| {
        assert here[end..] == data[offset + end..];
        assert here[3..end] == data[offset + 3..offset + end];
        var tail := ParseFields(here[end..], ids[1..]);
        if tail.Fields? {
          assert values + ([here[3..end]] + tail.values) == values + [here[3..end]] + tail.values;
        }
      }
    }
  }

  /** The source's loop over an offset computes `ParseResponse`. */
  method ParseAttributesLoop(data: Bytes, expected: Bytes) returns (r: Parsed)
    ensures r == ParseResponse(data, expected)
  {
    if |data| < 5 || data[0] != 0 {
      return Unparsed;
    }
    var offset := 5;
    var values: seq<Bytes> := [];
    var i := 0;
    assert expected[0..] == expected;
    while i < |expected|
      invariant 0 <= i <= |expected|
      invariant 5 <= offset <= |data|
      invariant ParseResponse(data, expected) == ParseRest(data, expected[i..], offset, values)
    {
      ParseRestStep(data, expected[i..], offset, values);
      assert expected[i..][1..] == expected[i + 1..];
      if offset >= |data| || data[offset] != expected[i] || offset + 2 >= |data| {
        return Unparsed;
      }
      var length := FromLittleEndian16(data[offset + 1], data[offset + 2]);
      var start := offset + 3;
      var end := start + length;
      if end > |data| {
        return Unparsed;
      }
      values := values + [data[start..end]];
      offset := end;
      i := i + 1;
    }
    assert values + [] == values;
    return Fields(values, offset);
  }

  // ---- the consumer as a state machine ----

  /** UTF-8 decoding belongs to the standard library: `Lossy` stands for it. */
  type Lossy = Bytes -> string

  datatype Metadata = Metadata(
    uid: Uid, title: string, subtitle: string, positiveAction: string, negativeAction: string)

  datatype Consumer = Consumer(
    queued: seq<Uid>, completed: seq<Uid>, pending: Option<Uid>, response: Bytes)

  datatype Outcome = Outcome(state: Consumer, metadata: Option<Metadata>, request: Option<Bytes>)

  const INITIAL := Consumer([], [], None, [])

  function Without(s: seq<Uid>, uid: Uid): (r: seq<Uid>)
    ensures |r| <= |s| && uid !in r
    ensures forall u :: u in r ==> u in s
  {
    if s == [] then []
    else Without(s[..|s| - 1], uid) + (if s[|s| - 1] == uid then [] else [s[|s| - 1]])
  }

  function StartNext(c: Consumer): (Consumer, Option<Bytes>) {
    if c.queued == [] then (c.(pending := None, response := []), None)
    else (c.(queued := c.queued[1..], pending := Some(c.queued[0]), response := []),
          Some(AttributeRequest(c.queued[0])))
  }

  function OnNotification(c: Consumer, value: Bytes): Outcome {
    match ParseSourceEvent(value)
    case None => Outcome(c, None, None)
    case Some(event) =>
      if event.kind.Removed? then
        Outcome(c.(queued := Without(c.queued, event.uid)), None, None)
      else if event.uid in c.completed || c.pending == Some(event.uid) || event.uid in c.queued then
        Outcome(c, None, None)
      else if c.pending.None? then
        Outcome(c.(pending := Some(event.uid), response := []), None,
                Some(AttributeRequest(event.uid)))
      else if |c.queued| < MAX_QUEUED then
        Outcome(c.(queued := c.queued + [event.uid]), None, None)
      else Outcome(c, None, None)
  }

  /** What the pending request yields once its seven values have been read. */
  function Finish(c: Consumer, values: seq<Bytes>, lossy: Lossy): Outcome
    requires c.pending.Some? && |values| == |ATTRIBUTE_IDS|
  {
    var done := c.(completed := Last(c.completed + [c.pending.value], MAX_COMPLETED));
    var (next, request) := StartNext(done);
    var metadata :=
      if values[0] == MESSAGES_APP then
        Some(Metadata(c.pending.value, lossy(values[1]), lossy(values[2]),
                      lossy(values[5]), lossy(values[6])))
      else None;
    Outcome(next, metadata, request)
  }

  predicate Overflows(c: Consumer, fragment: Bytes) {
    |c.response| + |fragment| > MAX_RESPONSE_BYTES
  }

  lemma {:induction false} ParsedHasSevenValues(data: Bytes)
    requires ParseAttributes(data).Fields?
    ensures |ParseAttributes(data).values| == |ATTRIBUTE_IDS|
    ensures ParseAttributes(data).used <= |data|
  {
    ParseFieldsSound(data[5..], ATTRIBUTE_IDS);
  }

  function OnData(c: Consumer, fragment: Bytes, lossy: Lossy): Outcome {
    if c.pending.None? || Overflows(c, fragment) then
      var (next, request) := StartNext(c);
      Outcome(next, None, request)
    else
      var response := c.response + fragment;
      match ParseAttributes(response)
      case Unparsed => Outcome(c.(response := response), None, None)
      case Fields(values, _) => ParsedHasSevenValues(response); Finish(c, values, lossy)
  }

  class AncsProtocolConsumer {
    var queued: seq<Uid>
    var completed: seq<Uid>
    var pending: Option<Uid>
    var response: Bytes
    const lossy: Lossy

    function View(): Consumer
      reads this
    {
      Consumer(queued, completed, pending, response)
    }

    constructor (lossy: Lossy)
      ensures View() == INITIAL && this.lossy == lossy
    {
      queued, completed, pending, response := [], [], None, [];
      this.lossy := lossy;
    }

    method NotificationSource(value: Bytes) returns (request: Option<Bytes>)
      modifies this
      ensures OnNotification(old(View()), value) == Outcome(View(), None, request)
    {
      var parsed := ParseSourceEvent(value);
      if parsed.None? {
        return None;
      }
      var event := parsed.value;
      if event.kind == Removed {
        queued := Without(queued, event.uid);
        return None;
      }
      if event.uid in completed || pending == Some(event.uid) || event.uid in queued {
        return None;
      }
      if pending.None? {
        pending := Some(event.uid);
        response := [];
        return Some(AttributeRequest(event.uid));
      }
      if |queued| < MAX_QUEUED {
        queued := queued + [event.uid];
      }
      return None;
    }

    method DataSource(fragment: Bytes) returns (metadata: Option<Metadata>, request: Option<Bytes>)
      modifies this
      ensures OnData(old(View()), fragment, lossy) == Outcome(View(), metadata, request)
    {
      if pending.None? || |response| + |fragment| > MAX_RESPONSE_BYTES {
        ResetPending();
        request := StartNextRequest();
        return None, request;
      }
      response := response + fragment;
      var parsed := ParseAttributesLoop(response, ATTRIBUTE_IDS);
      if parsed.Unparsed? {
        return None, None;
      }
      ParsedHasSevenValues(response);
      var Fields(values, consumed) := parsed;
      var uid := pending.value;
      pending := None;
      response := response[consumed..];
      ghost var all := completed + [uid];
      completed := completed + [uid];
      while |completed| > MAX_COMPLETED
        invariant Last(completed, MAX_COMPLETED) == Last(all, MAX_COMPLETED)
        invariant queued == old(queued)
      {
        completed := completed[1..];
      }
      metadata := None;
      if values[0] == MESSAGES_APP {
        metadata := Some(Metadata(uid, lossy(values[1]), lossy(values[2]),
                                  lossy(values[5]), lossy(values[6])));
      }
      request := StartNextRequest();
    }

    method ResetPending()
      modifies this
      ensures View() == old(View()).(pending := None, response := [])
    {
      pending := None;
      response := [];
    }

    method StartNextRequest() returns (request: Option<Bytes>)
      modifies this
      ensures StartNext(old(View())) == (View(), request)
    {
      ResetPending();
      if queued == [] {
        return None;
      }
      var uid := queued[0];
      queued := queued[1..];
      pending := Some(uid);
      return Some(AttributeRequest(uid));
    }
  }

  // ---- every reachable state ----

  datatype Event = Source(value: Bytes) | Data(fragment: Bytes)

  function Step(c: Consumer, e: Event, lossy: Lossy): Outcome {
    match e
    case Source(value) => OnNotification(c, value)
    case Data(fragment) => OnData(c, fragment, lossy)
  }

  ghost function Run(events: seq<Event>, lossy: Lossy): Consumer {
    if events == [] then INITIAL
    else Step(Run(events[..|events| - 1], lossy), events[|events| - 1], lossy).state
  }

  /** All UIDs the consumer remembers, in the order they move through it. */
  ghost function Remembered(c: Consumer): seq<Uid> {
    c.completed + (if c.pending.Some? then [c.pending.value] else []) + c.queued
  }

  ghost predicate Consistent(c: Consumer) {
    && Distinct(Remembered(c))
    && |c.queued| <= MAX_QUEUED
    && |c.completed| <= MAX_COMPLETED
    && |c.response| <= MAX_RESPONSE_BYTES
    && (c.pending.None? ==> c.queued == [] && c.response == [])
  }

  lemma {:induction false} WithoutKeepsDistinct(front: seq<Uid>, s: seq<Uid>, uid: Uid)
    requires Distinct(front + s)
    ensures Distinct(front + Without(s, uid))
  {
    if s != [] {
      var init, last := s[..|s| - 1], s[|s| - 1];
      assert front + s == front + init + [last];
      assert forall i :: 0 <= i < |front + init| ==> (front + s)[i] == (front + init)[i];
      WithoutKeepsDistinct(front, init, uid);
      var r := front + Without(init, uid);
      if last != uid {
        assert front + Without(s, uid) == r + [last];
        assert last !in front + init by {
          assert (front + s)[|front + init|] == last;
        }
        assert forall u :: u in r ==> u in front + init;
      } else {
        assert front + Without(s, uid) == r;
      }
    }
  }

  lemma {:induction false} StartNextConsistent(c: Consumer)
    requires Consistent(c)
    ensures Consistent(StartNext(c).0)
  {
    var r := Remembered(c);
    if c.pending.Some? {
      DistinctDropAt(r, |c.completed|);
      assert r[..|c.completed|] + r[|c.completed| + 1..] == c.completed + c.queued;
    } else {
      assert r == c.completed + c.queued;
    }
    if c.queued != [] {
      assert c.completed + [c.queued[0]] + c.queued[1..] == c.completed + c.queued;
    } else {
      assert c.completed + [] + [] == c.completed + c.queued;
    }
  }

  lemma {:induction false} FinishConsistent(c: Consumer, values: seq<Bytes>, lossy: Lossy)
    requires Consistent(c) && c.pending.Some? && |values| == |ATTRIBUTE_IDS|
    ensures Consistent(Finish(c, values, lossy).state)
  {
    var next := Finish(c, values, lossy).state;
    var all := c.completed + [c.pending.value];
    var drop := |all| - |next.completed|;
    assert next.completed == all[drop..];
    assert Remembered(c) == all + c.queued;
    SuffixKeepsDistinct(Remembered(c), drop);
    assert (all + c.queued)[drop..] == all[drop..] + c.queued;
    if c.queued != [] {
      assert Remembered(next) == all[drop..] + c.queued;
    } else {
      assert Remembered(next) == all[drop..] + c.queued;
    }
  }

  lemma {:induction false} StepConsistent(c: Consumer, e: Event, lossy: Lossy)
    requires Consistent(c)
    ensures Consistent(Step(c, e, lossy).state)
  {
    match e
    case Source(value) =>
      var p := ParseSourceEvent(value);
      if p.Some? && p.value.kind.Removed? {
        var front := c.completed + (if c.pending.Some? then [c.pending.value] else []);
        WithoutKeepsDistinct(front, c.queued, p.value.uid);
      } else if p.Some? && Step(c, e, lossy).state != c {
        var u := p.value.uid;
        assert Remembered(Step(c, e, lossy).state) == Remembered(c) + [u];
        assert u !in Remembered(c);
      }
    case Data(fragment) =>
      var response := c.response + fragment;
      if c.pending.None? || Overflows(c, fragment) {
        StartNextConsistent(c);
      } else if ParseAttributes(response).Fields? {
        ParsedHasSevenValues(response);
        FinishConsistent(c, ParseAttributes(response).values, lossy);
      }
  }

  /** In every reachable state the pending, queued and completed UIDs are pairwise
      distinct, all bounds hold, and an idle consumer holds nothing. */
  lemma {:induction false} RunConsistent(events: seq<Event>, lossy: Lossy)
    ensures Consistent(Run(events, lossy))
  {
    if events != [] {
      var init := events[..|events| - 1];
      RunConsistent(init, lossy);
      StepConsistent(Run(init, lossy), events[|events| - 1], lossy);
    }
  }

  // ---- replay suppression over whole runs ----

  /** The UID whose response `e` completes, if it completes one. */
  ghost function Completes(c: Consumer, e: Event): Option<Uid> {
    if e.Data? && c.pending.Some? && !Overflows(c, e.fragment)
       && ParseAttributes(c.response + e.fragment).Fields?
    then c.pending else None
  }

  /** The UIDs completed by a run, oldest first. */
  ghost function CompletionLog(events: seq<Event>, lossy: Lossy): seq<Uid> {
    if events == [] then []
    else
      var init := events[..|events| - 1];
      match Completes(Run(init, lossy), events[|events| - 1])
      case None => CompletionLog(init, lossy)
      case Some(uid) => CompletionLog(init, lossy) + [uid]
  }

  /** The replay window is the last 64 completions of the run. */
  lemma {:induction false} WindowIsLogTail(events: seq<Event>, lossy: Lossy)
    ensures Run(events, lossy).completed == Last(CompletionLog(events, lossy), MAX_COMPLETED)
  {
    if events != [] {
      var init := events[..|events| - 1];
      WindowIsLogTail(init, lossy);
      var c, e := Run(init, lossy), events[|events| - 1];
      var log := CompletionLog(init, lossy);
      if Completes(c, e).Some? {
        ParsedHasSevenValues(c.response + e.fragment);
        LastPush(log, MAX_COMPLETED, c.pending.value);
      }
    }
  }

  /** Any 65 consecutive completions are of 65 different notifications. */
  lemma {:induction false} CompletionsDistinctInWindow(events: seq<Event>, lossy: Lossy, a: nat, b: nat)
    requires a < b < |CompletionLog(events, lossy)| && b - a <= MAX_COMPLETED
    ensures CompletionLog(events, lossy)[a] != CompletionLog(events, lossy)[b]
    decreases |events|
  {
    var init := events[..|events| - 1];
    var c, e := Run(init, lossy), events[|events| - 1];
    var log := CompletionLog(init, lossy);
    if b < |log| {
      CompletionsDistinctInWindow(init, lossy, a, b);
    } else {
      RunConsistent(init, lossy);
      WindowIsLogTail(init, lossy);
      var window := Last(log, MAX_COMPLETED);
      assert window[a - (|log| - |window|)] == log[a];
      var r := Remembered(c);
      assert r[|c.completed|] == c.pending.value;
      assert r[a - (|log| - |window|)] == log[a];
    }
  }

  lemma {:induction false} RequestIsForPending(c: Consumer, e: Event, lossy: Lossy)
    requires Step(c, e, lossy).request.Some?
    ensures var next := Step(c, e, lossy).state;
            && next.pending.Some?
            && Step(c, e, lossy).request.value == AttributeRequest(next.pending.value)
  {
    if e.Data? && c.pending.Some? && !Overflows(c, e.fragment)
       && ParseAttributes(c.response + e.fragment).Fields? {
      ParsedHasSevenValues(c.response + e.fragment);
    }
  }

  /** Replay suppression. If step `i` of a run writes a request for a UID that was
      completed before, then since that completion at least 64 pairwise distinct
      other notifications have completed. */
  lemma {:induction false} ReplaySuppression(events: seq<Event>, lossy: Lossy, i: nat, a: nat)
    requires i < |events|
    requires Step(Run(events[..i], lossy), events[i], lossy).request.Some?
    requires a < |CompletionLog(events[..i + 1], lossy)|
    requires AttributeRequest(CompletionLog(events[..i + 1], lossy)[a])
          == Step(Run(events[..i], lossy), events[i], lossy).request.value
    ensures var log := CompletionLog(events[..i + 1], lossy);
            && |log| - a > MAX_COMPLETED
            && Distinct(log[|log| - MAX_COMPLETED..])
            && log[a] !in log[|log| - MAX_COMPLETED..]
  {
    var done := events[..i + 1];
    assert done[..|done| - 1] == events[..i];
    var log := CompletionLog(done, lossy);
    var c := Run(done, lossy);
    RequestIsForPending(Run(events[..i], lossy), events[i], lossy);
    assert UidAt(AttributeRequest(log[a]), 1) == UidAt(AttributeRequest(c.pending.value), 1);
    RunConsistent(done, lossy);
    WindowIsLogTail(done, lossy);
    var window := Last(log, MAX_COMPLETED);
    if |log| - a <= MAX_COMPLETED {
      LastContains(log, MAX_COMPLETED, a);
    }
    assert log[a] !in window by {
      var r := Remembered(c);
      assert r[|window|] == log[a];
      assert forall k :: 0 <= k < |window| ==> r[k] == window[k];
    }
    forall x, y | 0 <= x < y < |window| ensures window[x] != window[y] {
      CompletionsDistinctInWindow(done, lossy, x + |log| - |window|, y + |log| - |window|);
    }
  }

  // ---- fragmentation independence ----

  ghost function Feed(c: Consumer, fragments: seq<Bytes>, lossy: Lossy): Consumer {
    if fragments == [] then c
    else OnData(Feed(c, fragments[..|fragments| - 1], lossy), fragments[|fragments| - 1], lossy).state
  }

  /** Feeding the first `k` fragments of a response: the state depends only on the
      bytes delivered so far, not on how they were cut. */
  lemma {:induction false} FeedPrefix(
      c: Consumer, uid: Uid, values: seq<Bytes>, fragments: seq<Bytes>, lossy: Lossy, k: nat)
    requires c.pending.Some? && c.response == []
    requires |values| == |ATTRIBUTE_IDS| && FieldValues(values)
    requires Flatten(fragments) == EncodeResponse(uid, values)
    requires |EncodeResponse(uid, values)| <= MAX_RESPONSE_BYTES && k <= |fragments|
    ensures var e, got := EncodeResponse(uid, values), Flatten(fragments[..k]);
            && got <= e
            && Feed(c, fragments[..k], lossy)
               == if got == e then Finish(c, values, lossy).state else c.(response := got)
  {
    var e := EncodeResponse(uid, values);
    assert fragments == fragments[..k] + fragments[k..];
    FlattenAppend(fragments[..k], fragments[k..]);
    if k == 0 {
      assert c.(response := []) == c;
    } else {
      FeedPrefix(c, uid, values, fragments, lossy, k - 1);
      var last := fragments[k - 1];
      assert fragments[..k] == fragments[..k - 1] + [last];
      FlattenLast(fragments[..k - 1], last);
      FragmentStep(c, uid, values, Flatten(fragments[..k - 1]), last, lossy);
    }
  }

  /** One fragment, given what has been delivered before it. */
  lemma {:induction false} FragmentStep(c: Consumer, uid: Uid, values: seq<Bytes>, got: Bytes, fragment: Bytes, lossy: Lossy)
    requires c.pending.Some? && c.response == []
    requires |values| == |ATTRIBUTE_IDS| && FieldValues(values)
    requires |EncodeResponse(uid, values)| <= MAX_RESPONSE_BYTES
    requires got + fragment <= EncodeResponse(uid, values)
    ensures var e := EncodeResponse(uid, values);
            var before := if got == e then Finish(c, values, lossy).state else c.(response := got);
            OnData(before, fragment, lossy)
            == if got == e then Outcome(before, None, None)
               else if got + fragment == e then Finish(c, values, lossy)
               else Outcome(c.(response := got + fragment), None, None)
  {
    var e := EncodeResponse(uid, values);
    if got == e {
      assert fragment == [];
      var before := Finish(c, values, lossy).state;
      assert ParseAttributes([] + []).Unparsed?;
      assert before.response + [] == before.response;
    } else if got + fragment == e {
      ParseWhole(uid, values, []);
      assert e + [] == e;
    } else {
      ParseFailsOnProperPrefix(uid, values, got + fragment);
    }
  }

  /** Fragmentation independence. However a response of at most 4096 bytes is cut
      into fragments, empty ones included, every fragment before the last byte
      yields nothing, the one that brings the last byte yields exactly the values
      sent, any empty fragments after it yield nothing, and the final state is the
      one a single fragment would have produced. */
  lemma {:induction false} FragmentationIndependence(
      c: Consumer, uid: Uid, values: seq<Bytes>, fragments: seq<Bytes>, lossy: Lossy, k: nat)
    requires c.pending.Some? && c.response == []
    requires |values| == |ATTRIBUTE_IDS| && FieldValues(values)
    requires Flatten(fragments) == EncodeResponse(uid, values)
    requires |EncodeResponse(uid, values)| <= MAX_RESPONSE_BYTES && k < |fragments|
    ensures
      var e, before := EncodeResponse(uid, values), Flatten(fragments[..k]);
      var out := OnData(Feed(c, fragments[..k], lossy), fragments[k], lossy);
      && (before == e || before + fragments[k] < e ==> out.metadata.None? && out.request.None?)
      && (before < e && before + fragments[k] == e ==>
            && (values[0] != MESSAGES_APP ==> out.metadata.None?)
            && (values[0] == MESSAGES_APP ==> out.metadata == Some(
                  Metadata(c.pending.value, lossy(values[1]), lossy(values[2]),
                           lossy(values[5]), lossy(values[6]))))
            && out.request == (if c.queued == [] then None else Some(AttributeRequest(c.queued[0]))))
    ensures Feed(c, fragments, lossy) == OnData(c, EncodeResponse(uid, values), lossy).state
  {
    var e := EncodeResponse(uid, values);
    FeedPrefix(c, uid, values, fragments, lossy, k);
    assert fragments == fragments[..k] + [fragments[k]] + fragments[k + 1..];
    FlattenAppend(fragments[..k] + [fragments[k]], fragments[k + 1..]);
    FlattenLast(fragments[..k], fragments[k]);
    FragmentStep(c, uid, values, Flatten(fragments[..k]), fragments[k], lossy);
    FeedPrefix(c, uid, values, fragments, lossy, |fragments|);
    assert fragments[..|fragments|] == fragments;
    FragmentStep(c, uid, values, [], e, lossy);
    assert [] + e == e;
    assert c.(response := []) == c;
  }

  // ---- bounded drain ----

  const PER_REQUEST := MAX_RESPONSE_BYTES + 1

  /** How many nonempty fragments can still arrive before the consumer is idle. */
  ghost function Backlog(c: Consumer): nat
    requires |c.response| <= MAX_RESPONSE_BYTES
  {
    if c.pending.None? then 0 else |c.queued| * PER_REQUEST + (PER_REQUEST - |c.response|)
  }

  lemma {:induction false} DrainStep(c: Consumer, fragment: Bytes, lossy: Lossy)
    requires Consistent(c) && fragment != []
    ensures Consistent(OnData(c, fragment, lossy).state)
    ensures var next := OnData(c, fragment, lossy).state;
            if c.pending.None? then next == c else Backlog(next) < Backlog(c)
  {
    StepConsistent(c, Data(fragment), lossy);
    if c.pending.Some? && !Overflows(c, fragment) && ParseAttributes(c.response + fragment).Fields? {
      ParsedHasSevenValues(c.response + fragment);
    }
  }

  lemma {:induction false} DrainFrom(c: Consumer, fragments: seq<Bytes>, lossy: Lossy)
    requires Consistent(c)
    requires forall i :: 0 <= i < |fragments| ==> fragments[i] != []
    ensures var end := Feed(c, fragments, lossy);
            && Consistent(end)
            && (end.pending.None? || Backlog(end) + |fragments| <= Backlog(c))
  {
    if fragments != [] {
      DrainFrom(c, fragments[..|fragments| - 1], lossy);
      DrainStep(Feed(c, fragments[..|fragments| - 1], lossy), fragments[|fragments| - 1], lossy);
    }
  }

  /** Bounded drain: without new notifications, (queued + 1) * 4097 nonempty
      fragments, well-formed or not, leave no request pending and nothing queued. */
  lemma {:induction false} BoundedDrain(c: Consumer, fragments: seq<Bytes>, lossy: Lossy)
    requires Consistent(c)
    requires forall i :: 0 <= i < |fragments| ==> fragments[i] != []
    requires |fragments| >= (|c.queued| + 1) * PER_REQUEST
    ensures var end := Feed(c, fragments, lossy);
            end.pending.None? && end.queued == [] && end.response == []
  {
    DrainFrom(c, fragments, lossy);
    var end := Feed(c, fragments, lossy);
    if end.pending.Some? {
      assert false;
    }
  }

  ghost function Junk(n: nat): (r: seq<Bytes>)
    ensures |r| == n
  {
    if n == 0 then [] else Junk(n - 1) + [[1]]
  }

  lemma {:induction false} JunkStep(c: Consumer, lossy: Lossy)
    requires Consistent(c) && c.pending.Some? && Backlog(c) > 1
    requires c.response != [] ==> c.response[0] == 1
    ensures var next := OnData(c, [1], lossy).state;
            && Consistent(next) && next.pending.Some? && Backlog(next) == Backlog(c) - 1
            && (next.response != [] ==> next.response[0] == 1)
  {
    StepConsistent(c, Data([1]), lossy);
    assert (c.response + [1])[0] == 1;
  }

  /** The bound is exact: one-byte fragments that never form a response keep the
      consumer busy for every one of those fragments but the last. */
  lemma {:induction false} DrainBoundIsTight(c: Consumer, n: nat, lossy: Lossy)
    requires Consistent(c) && c.pending.Some? && c.response == []
    requires n < (|c.queued| + 1) * PER_REQUEST
    ensures var end := Feed(c, Junk(n), lossy);
            && Consistent(end) && end.pending.Some?
            && Backlog(end) == (|c.queued| + 1) * PER_REQUEST - n
            && (end.response != [] ==> end.response[0] == 1)
  {
    if n > 0 {
      DrainBoundIsTight(c, n - 1, lossy);
      assert Junk(n)[..n - 1] == Junk(n - 1);
      JunkStep(Feed(c, Junk(n - 1), lossy), lossy);
    }
  }
}

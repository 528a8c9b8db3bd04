/** Fixed-length hexadecimal text, as used for media credentials, operation
    identifiers and page cursors. */
module Hex {
  import opened Common

  type Nibble = x: int | 0 <= x < 16

  function Digit(n: Nibble): char {
    if n < 10 then '0' + n as char else 'a' + (n - 10) as char
  }

  function DecodeNibble(c: char): Option<Nibble> {
    if '0' <= c <= '9' then Some((c - '0') as int)
    else if 'a' <= c <= 'f' then Some((c - 'a') as int + 10)
    else if 'A' <= c <= 'F' then Some((c - 'A') as int + 10)
    else None
  }

  predicate IsHexDigit(c: char) {
    DecodeNibble(c).Some?
  }

  function Lower(c: char): char {
    if 'A' <= c <= 'F' then 'a' + (c - 'A') else c
  }

  lemma {:induction false} DigitRoundTrip(n: Nibble)
    ensures DecodeNibble(Digit(n)) == Some(n)
  {
  }

  lemma {:induction false} NibbleRoundTrip(c: char)
    requires IsHexDigit(c)
    ensures Digit(DecodeNibble(c).value) == Lower(c)
  {
  }

  function EncodeByte(b: Byte): (r: string)
    ensures |r| == 2
  {
    [Digit(b / 16), Digit(b % 16)]
  }

  function Encode(bytes: Bytes): (r: string)
    ensures |r| == 2 * |bytes|
  {
    if bytes == [] then "" else Encode(bytes[..|bytes| - 1]) + EncodeByte(bytes[|bytes| - 1])
  }

  predicate AllHex(text: string) {
    forall i :: 0 <= i < |text| ==> IsHexDigit(text[i])
  }

  /** The byte two hexadecimal digits denote. */
  function PairByte(a: char, b: char): Byte
    requires IsHexDigit(a) && IsHexDigit(b)
  {
    var high: int, low: int := DecodeNibble(a).value, DecodeNibble(b).value;
    16 * high + low
  }

  lemma {:induction false} ByteRoundTrip(b: Byte)
    ensures var e := EncodeByte(b); IsHexDigit(e[0]) && IsHexDigit(e[1]) && PairByte(e[0], e[1]) == b
  {
    DigitRoundTrip(b / 16);
    DigitRoundTrip(b % 16);
  }

  lemma {:induction false} PairRoundTrip(a: char, b: char)
    requires IsHexDigit(a) && IsHexDigit(b)
    ensures EncodeByte(PairByte(a, b)) == [Lower(a), Lower(b)]
  {
    NibbleRoundTrip(a);
    NibbleRoundTrip(b);
    var high: int, low: int := DecodeNibble(a).value, DecodeNibble(b).value;
    assert (16 * high + low) / 16 == high && (16 * high + low) % 16 == low;
  }

  function Decode(text: string): (r: Bytes)
    requires |text| % 2 == 0 && AllHex(text)
    ensures |r| == |text| / 2
  {
    if text == "" then []
    else
      var n := |text|;
      Decode(text[..n - 2]) + [PairByte(text[n - 2], text[n - 1])]
  }

  /** `decode_hex::<N>`: the bytes and whether the text was valid; zeros if not. */
  function DecodeFixed(n: nat, text: string): (Bytes, bool) {
    if |text| == 2 * n && AllHex(text) then (Decode(text), true)
    else (seq(n, _ => 0), false)
  }

  lemma {:induction false} DecodeSnoc(text: string, a: char, b: char)
    requires |text| % 2 == 0 && AllHex(text) && IsHexDigit(a) && IsHexDigit(b)
    ensures AllHex(text + [a, b]) && Decode(text + [a, b]) == Decode(text) + [PairByte(a, b)]
  {
    var whole := text + [a, b];
    assert whole[..|whole| - 2] == text;
  }

  lemma {:induction false} EncodeSnoc(bytes: Bytes, b: Byte)
    ensures Encode(bytes + [b]) == Encode(bytes) + EncodeByte(b)
  {
    var whole := bytes + [b];
    assert whole[..|whole| - 1] == bytes;
  }

  lemma {:induction false} DecodeEncodeSnoc(init: Bytes, b: Byte)
    requires AllHex(Encode(init)) && Decode(Encode(init)) == init
    ensures AllHex(Encode(init + [b])) && Decode(Encode(init + [b])) == init + [b]
  {
    EncodeSnoc(init, b);
    ByteRoundTrip(b);
    var e := EncodeByte(b);
    DecodeSnoc(Encode(init), e[0], e[1]);
    assert e == [e[0], e[1]];
  }

  /** Decoding inverts encoding. */
  lemma {:induction false} DecodeEncode(bytes: Bytes)
    ensures AllHex(Encode(bytes)) && Decode(Encode(bytes)) == bytes
    ensures DecodeFixed(|bytes|, Encode(bytes)) == (bytes, true)
  {
    if bytes != [] {
      var init, b := bytes[..|bytes| - 1], bytes[|bytes| - 1];
      assert bytes == init + [b];
      DecodeEncode(init);
      DecodeEncodeSnoc(init, b);
    }
  }

  function Lowered(text: string): string {
    if text == "" then "" else Lowered(text[..|text| - 1]) + [Lower(text[|text| - 1])]
  }

  lemma {:induction false} LoweredSnoc(text: string, a: char, b: char)
    ensures Lowered(text + [a, b]) == Lowered(text) + [Lower(a), Lower(b)]
  {
    var whole := text + [a, b];
    assert whole[..|whole| - 1] == text + [a];
    assert (text + [a])[..|text|] == text;
    assert Lowered(text) + [Lower(a)] + [Lower(b)] == Lowered(text) + [Lower(a), Lower(b)];
  }

  lemma {:induction false} EncodeDecodeSnoc(text: string, init: string, a: char, b: char)
    requires |text| % 2 == 0 && AllHex(text) && text == init + [a, b]
    requires |init| % 2 == 0 && AllHex(init) && IsHexDigit(a) && IsHexDigit(b)
    requires Encode(Decode(init)) == Lowered(init)
    ensures Encode(Decode(text)) == Lowered(text)
  {
    DecodeSnoc(init, a, b);
    EncodeSnoc(Decode(init), PairByte(a, b));
    PairRoundTrip(a, b);
    LoweredSnoc(init, a, b);
  }

  /** Encoding what a text denotes gives the text in lower case, so two valid texts
      denote the same bytes exactly when they agree up to case. */
  lemma {:induction false} EncodeDecode(text: string)
    requires |text| % 2 == 0 && AllHex(text)
    ensures Encode(Decode(text)) == Lowered(text)
  {
    if text != "" {
      var n := |text|;
      var init, a, b := text[..n - 2], text[n - 2], text[n - 1];
      assert text == init + [a, b];
      EncodeDecode(init);
      EncodeDecodeSnoc(text, init, a, b);
    }
  }

  /** The encoding loop. */
  method EncodeLoop(bytes: Bytes) returns (encoded: string)
    ensures encoded == Encode(bytes)
  {
    encoded := "";
    for i := 0 to |bytes|
      invariant encoded == Encode(bytes[..i])
    {
      assert bytes[..i + 1][..i] == bytes[..i];
      encoded := encoded + [Digit(bytes[i] / 16)];
      encoded := encoded + [Digit(bytes[i] % 16)];
    }
    assert bytes[..|bytes|] == bytes;
  }

  /** The first `i` pairs of a text, one pair further on. */
  lemma {:induction false} DecodeNext(text: string, i: nat)
    requires 2 * i + 2 <= |text| && AllHex(text[..2 * i]) && IsHexDigit(text[2 * i]) && IsHexDigit(text[2 * i + 1])
    ensures AllHex(text[..2 * (i + 1)])
    ensures Decode(text[..2 * (i + 1)]) == Decode(text[..2 * i]) + [PairByte(text[2 * i], text[2 * i + 1])]
  {
    DecodeSnoc(text[..2 * i], text[2 * i], text[2 * i + 1]);
    assert text[..2 * (i + 1)] == text[..2 * i] + [text[2 * i], text[2 * i + 1]];
  }

  method Zeros(n: nat) returns (zeros: array<Byte>)
    ensures fresh(zeros) && zeros[..] == seq(n, _ => 0)
  {
    zeros := new Byte[n](_ => 0);
  }

  /** The decoding loop, filling a fixed-size buffer. */
  method DecodeLoop(n: nat, text: string) returns (decoded: array<Byte>, valid: bool)
    ensures fresh(decoded)
    ensures (decoded[..], valid) == DecodeFixed(n, text)
  {
    decoded := Zeros(n);
    if |text| != 2 * n {
      return decoded, false;
    }
    for i := 0 to n
      invariant fresh(decoded) && decoded.Length == n
      invariant AllHex(text[..2 * i]) && decoded[..i] == Decode(text[..2 * i])
    {
      var high := DecodeNibble(text[2 * i]);
      var low := DecodeNibble(text[2 * i + 1]);
      if high.None? || low.None? {
        assert !AllHex(text);
        decoded := Zeros(n);
        return decoded, false;
      }
      DecodeNext(text, i);
      ghost var done := decoded[..i];
      decoded[i] := PairByte(text[2 * i], text[2 * i + 1]);
      assert decoded[..i + 1] == done + [decoded[i]];
    }
    assert text[..2 * n] == text && decoded[..n] == decoded[..];
    return decoded, true;
  }
}

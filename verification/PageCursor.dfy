/** The text form of a page's starting offset. */
module PageCursor {
  import opened Common
  import Hex

  const MAX_CURSOR_OFFSET: nat := 1_000_000

  const CURSOR_DIGITS: nat := 16

  function Pow16(k: nat): nat {
    if k == 0 then 1 else 16 * Pow16(k - 1)
  }

  /** `n` in hexadecimal, `k` digits, zero-padded on the left. */
  function HexText(n: nat, k: nat): (r: string)
    ensures |r| == k
  {
    if k == 0 then "" else HexText(n / 16, k - 1) + [Hex.Digit(n % 16)]
  }

  /** The number that hexadecimal digits of either case denote. */
  function HexValue(text: string): nat
    requires Hex.AllHex(text)
  {
    if text == "" then 0
    else
      var digit: int := Hex.DecodeNibble(text[|text| - 1]).value;
      16 * HexValue(text[..|text| - 1]) + digit
  }

  function Encode(offset: nat): string {
    HexText(offset, CURSOR_DIGITS)
  }

  /** The offset a request starts at; `None` is an invalid cursor. */
  function Parse(value: Option<string>): Option<nat> {
    match value
    case None => Some(0)
    case Some(text) =>
      if |text| != CURSOR_DIGITS || !Hex.AllHex(text) then None
      else if HexValue(text) > MAX_CURSOR_OFFSET then None
      else Some(HexValue(text))
  }

  function Advance(offset: nat, count: nat): nat {
    Min(offset + count, MAX_CURSOR_OFFSET)
  }

  lemma {:induction false} ValueSnoc(text: string, c: char)
    requires Hex.AllHex(text) && Hex.IsHexDigit(c)
    ensures Hex.AllHex(text + [c])
    ensures var digit: int := Hex.DecodeNibble(c).value; HexValue(text + [c]) == 16 * HexValue(text) + digit
  {
    assert (text + [c])[..|text|] == text;
  }

  lemma {:induction false} ValueOfText(n: nat, k: nat)
    requires n < Pow16(k)
    ensures Hex.AllHex(HexText(n, k)) && HexValue(HexText(n, k)) == n
  {
    if k > 0 {
      ValueOfText(n / 16, k - 1);
      Hex.DigitRoundTrip(n % 16);
      ValueSnoc(HexText(n / 16, k - 1), Hex.Digit(n % 16));
    }
  }

  lemma {:induction false} TextOfValue(text: string)
    requires Hex.AllHex(text)
    ensures HexText(HexValue(text), |text|) == Hex.Lowered(text)
  {
    if text != "" {
      var init, c := text[..|text| - 1], text[|text| - 1];
      TextOfValue(init);
      Hex.NibbleRoundTrip(c);
      var digit: int := Hex.DecodeNibble(c).value;
      var high := HexValue(init);
      assert HexValue(text) == 16 * high + digit;
      assert (16 * high + digit) / 16 == high && (16 * high + digit) % 16 == digit;
    }
  }

  lemma {:induction false} SixteenDigitsSuffice()
    ensures MAX_CURSOR_OFFSET < Pow16(CURSOR_DIGITS)
  {
    assert Pow16(5) == 0x10_0000;
    assert Pow16(10) == 0x10_0000 * Pow16(5);
    assert Pow16(15) == 0x10_0000 * Pow16(10);
  }

  /** A cursor the server hands out is read back as the same offset. */
  lemma {:induction false} ParseEncode(offset: nat)
    requires offset <= MAX_CURSOR_OFFSET
    ensures Parse(Some(Encode(offset))) == Some(offset)
  {
    SixteenDigitsSuffice();
    ValueOfText(offset, CURSOR_DIGITS);
  }

  /** The accepted texts are exactly the encodings of the permitted offsets, in either
      case of letters. */
  lemma {:induction false} ParseAcceptsExactlyEncodings(text: string, offset: nat)
    ensures Parse(Some(text)) == Some(offset)
            <==> Hex.AllHex(text) && offset <= MAX_CURSOR_OFFSET && Hex.Lowered(text) == Encode(offset)
  {
    LoweredLength(text);
    if Hex.AllHex(text) {
      TextOfValue(text);
      if offset <= MAX_CURSOR_OFFSET && Hex.Lowered(text) == Encode(offset) {
        LoweredValue(text);
        ParseEncode(offset);
      }
    }
  }

  lemma {:induction false} LoweredLength(text: string)
    ensures |Hex.Lowered(text)| == |text|
  {
    if text != "" {
      LoweredLength(text[..|text| - 1]);
    }
  }

  /** Case does not change what digits denote. */
  lemma {:induction false} LoweredValue(text: string)
    requires Hex.AllHex(text)
    ensures Hex.AllHex(Hex.Lowered(text)) && HexValue(Hex.Lowered(text)) == HexValue(text)
  {
    if text != "" {
      var init, c := text[..|text| - 1], text[|text| - 1];
      LoweredValue(init);
      ValueSnoc(Hex.Lowered(init), Hex.Lower(c));
    }
  }

  /** The first digit counts most. */
  lemma {:induction false} HexPlaces(first: char, rest: string)
    requires Hex.IsHexDigit(first) && Hex.AllHex(rest)
    ensures Hex.AllHex([first] + rest)
    ensures var digit: int := Hex.DecodeNibble(first).value;
            HexValue([first] + rest) == digit * Pow16(|rest|) + HexValue(rest)
  {
    var text := [first] + rest;
    var digit: int := Hex.DecodeNibble(first).value;
    if rest == [] {
      assert text[..0] == "" && HexValue("") == 0;
    } else {
      var init, last := rest[..|rest| - 1], rest[|rest| - 1];
      HexPlaces(first, init);
      assert text == ([first] + init) + [last];
      ValueSnoc([first] + init, last);
      assert Pow16(|rest|) == 16 * Pow16(|init|);
      DigitShift(digit, Pow16(|init|), HexValue(init));
    }
  }

  lemma {:induction false} DigitShift(digit: nat, p: nat, n: nat)
    ensures 16 * (digit * p + n) == digit * (16 * p) + 16 * n
  {
  }

  lemma {:induction false} ZeroText(k: nat)
    ensures forall i :: 0 <= i < k ==> HexText(0, k)[i] == '0'
  {
    if k > 0 {
      ZeroText(k - 1);
    }
  }

  lemma {:induction false} SmallText(n: nat, k: nat)
    requires n < 16 && k > 0
    ensures forall i :: 0 <= i < k - 1 ==> HexText(n, k)[i] == '0'
  {
    ZeroText(k - 1);
    assert n / 16 == 0;
  }

  /** A cursor has sixteen digits, padded with zeros on the left, and no other text is
      accepted. */
  lemma {:induction false} CursorLength(text: string, offset: nat)
    ensures |Encode(offset)| == 16
    ensures offset < 16 ==> forall i :: 0 <= i < 15 ==> Encode(offset)[i] == '0'
    ensures Parse(Some(text)).Some? ==> |text| == 16
    ensures Parse(None) == Some(0)
  {
    if offset < 16 {
      SmallText(offset, CURSOR_DIGITS);
    }
  }
}

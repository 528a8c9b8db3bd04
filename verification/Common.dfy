/** Values shared by every component: bytes, fixed-width integers and their
    byte orders, truncating division, and small facts about sequences. */
module Common {

  datatype Option<+T> = None | Some(value: T)

  type Byte = x: int | 0 <= x < 0x100

  type Bytes = seq<Byte>

  type I16 = x: int | -0x8000 <= x < 0x8000

  type U64 = x: int | 0 <= x < 0x1_0000_0000_0000_0000

  type I64 = x: int | -0x8000_0000_0000_0000 <= x < 0x8000_0000_0000_0000

  const U64_MAX: U64 := 0xFFFF_FFFF_FFFF_FFFF

  const I64_MAX: I64 := 0x7FFF_FFFF_FFFF_FFFF

  function Min(a: int, b: int): int {
    if a <= b then a else b
  }

  function Max(a: int, b: int): int {
    if a <= b then b else a
  }

  /** A count as a 64-bit counter holds it that stays at its maximum. */
  function Saturate(n: nat): U64 {
    if n > U64_MAX then U64_MAX else n
  }

  function SaturatingIncrement(n: U64): U64 {
    if n == U64_MAX then n else n + 1
  }

  /** Division as Java performs it: the quotient is rounded toward zero. */
  function TruncDiv(a: int, b: int): int
    requires b > 0
  {
    if a >= 0 then a / b else -((-a) / b)
  }

  lemma {:induction false} MulMonotone(a: int, b: int, x: nat)
    requires a <= b
    ensures a * x <= b * x
  {
  }

  /** `a / n` is the only `q` with `q * n <= a < (q + 1) * n`. */
  lemma {:induction false} QuotientIs(a: int, q: int, n: nat)
    requires n > 0 && q * n <= a < (q + 1) * n
    ensures a / n == q
  {
    var p := a / n;
    assert p * n <= a < (p + 1) * n;
    if p < q {
      MulMonotone(p + 1, q, n);
    } else if q < p {
      MulMonotone(q + 1, p, n);
    }
  }

  /** The last `n` elements of `s`, or all of them. */
  function Last<T>(s: seq<T>, n: nat): seq<T> {
    if |s| <= n then s else s[|s| - n..]
  }

  lemma {:induction false} LastPush<T>(s: seq<T>, n: nat, x: T)
    requires n > 0
    ensures Last(Last(s, n) + [x], n) == Last(s + [x], n)
  {
  }

  lemma {:induction false} LastContains<T>(s: seq<T>, n: nat, a: nat)
    requires |s| - n <= a < |s|
    ensures s[a] in Last(s, n)
  {
    assert s[a] == Last(s, n)[a - (|s| - |Last(s, n)|)];
  }

  ghost predicate Distinct<T>(s: seq<T>) {
    forall i, j :: 0 <= i < j < |s| ==> s[i] != s[j]
  }

  lemma {:induction false} DistinctDropAt<T>(s: seq<T>, i: nat)
    requires i < |s| && Distinct(s)
    ensures Distinct(s[..i] + s[i + 1..])
  {
    var r := s[..i] + s[i + 1..];
    forall a, b | 0 <= a < b < |r| ensures r[a] != r[b] {
      assert r[a] == s[if a < i then a else a + 1];
      assert r[b] == s[if b < i then b else b + 1];
    }
  }

  lemma {:induction false} SuffixKeepsDistinct<T>(s: seq<T>, n: nat)
    requires n <= |s| && Distinct(s)
    ensures Distinct(s[n..])
  {
  }

  lemma {:induction false} ConcatAssociative<T>(a: seq<T>, b: seq<T>, c: seq<T>)
    ensures (a + b) + c == a + (b + c)
  {
  }

  function Flatten<T>(parts: seq<seq<T>>): seq<T> {
    if parts == [] then [] else parts[0] + Flatten(parts[1..])
  }

  lemma {:induction false} FlattenAppend<T>(a: seq<seq<T>>, b: seq<seq<T>>)
    ensures Flatten(a + b) == Flatten(a) + Flatten(b)
  {
    if a == [] {
      assert a + b == b;
    } else {
      FlattenAppend(a[1..], b);
      assert (a + b)[0] == a[0] && (a + b)[1..] == a[1..] + b;
      ConcatAssociative(a[0], Flatten(a[1..]), Flatten(b));
    }
  }

  lemma {:induction false} FlattenLast<T>(parts: seq<seq<T>>, last: seq<T>)
    ensures Flatten(parts + [last]) == Flatten(parts) + last
  {
    FlattenAppend(parts, [last]);
    assert Flatten([last]) == last;
  }

  /** Stores `part` in `buffer` at `offset`, as a read into a slice does. */
  method StoreAt(buffer: array<Byte>, offset: nat, part: Bytes)
    requires offset + |part| <= buffer.Length
    modifies buffer
    ensures buffer[..offset + |part|] == old(buffer[..offset]) + part
  {
    for i := 0 to |part|
      invariant buffer[..offset + i] == old(buffer[..offset]) + part[..i]
    {
      buffer[offset + i] := part[i];
    }
  }

  // ---- fixed-width integers and byte orders ----

  function Pow256(k: nat): nat {
    if k == 0 then 1 else 256 * Pow256(k - 1)
  }

  lemma {:induction false} Pow256Eight()
    ensures Pow256(8) == 0x1_0000_0000_0000_0000
  {
    assert Pow256(4) == 0x1_0000_0000;
    assert Pow256(6) == 0x1_0000_0000_0000;
  }

  /** The `k` low-order bytes of `n`, most significant first. */
  function ToBigEndian(n: nat, k: nat): (r: Bytes)
    ensures |r| == k
  {
    if k == 0 then [] else ToBigEndian(n / 256, k - 1) + [n % 256]
  }

  function FromBigEndian(b: Bytes): nat {
    if b == [] then 0 else FromBigEndian(b[..|b| - 1]) * 256 + b[|b| - 1]
  }

  lemma {:induction false} BigEndianValue(n: nat, k: nat)
    requires n < Pow256(k)
    ensures FromBigEndian(ToBigEndian(n, k)) == n
  {
    if k > 0 {
      BigEndianValue(n / 256, k - 1);
      var r := ToBigEndian(n, k);
      assert r[..k - 1] == ToBigEndian(n / 256, k - 1);
    }
  }

  lemma {:induction false} BigEndianBytes(b: Bytes)
    ensures FromBigEndian(b) < Pow256(|b|)
    ensures ToBigEndian(FromBigEndian(b), |b|) == b
  {
    if b != [] {
      BigEndianBytes(b[..|b| - 1]);
      assert b == b[..|b| - 1] + [b[|b| - 1]];
    }
  }

  function LittleEndian16(n: nat): (r: Bytes)
    requires n < 0x1_0000
    ensures |r| == 2
  {
    [n % 256, n / 256]
  }

  function FromLittleEndian16(low: Byte, high: Byte): (n: nat)
    ensures n < 0x1_0000
  {
    low + 256 * high
  }

  lemma {:induction false} LittleEndian16Inverse(low: Byte, high: Byte)
    ensures LittleEndian16(FromLittleEndian16(low, high)) == [low, high]
  {
  }

  /** A signed sample as its two's-complement little-endian bytes. */
  function SampleBytes(s: I16): (r: Bytes)
    ensures |r| == 2
  {
    LittleEndian16(if s < 0 then s + 0x1_0000 else s)
  }

  function BytesSample(low: Byte, high: Byte): (s: I16)
  {
    var n := low + 256 * high;
    if n >= 0x8000 then n - 0x1_0000 else n
  }

  lemma {:induction false} SampleRoundTrip(s: I16)
    ensures BytesSample(SampleBytes(s)[0], SampleBytes(s)[1]) == s
  {
  }

  lemma {:induction false} SampleBytesOnto(low: Byte, high: Byte)
    ensures SampleBytes(BytesSample(low, high)) == [low, high]
  {
  }

  // ---- byte orders, place by place ----

  /** The first byte counts most. */
  lemma {:induction false} BigEndianPlaces(first: Byte, rest: Bytes)
    ensures FromBigEndian([first] + rest) == first * Pow256(|rest|) + FromBigEndian(rest)
  {
    var b := [first] + rest;
    if rest == [] {
      assert b[..0] == [] && FromBigEndian([]) == 0;
    } else {
      var init, last := rest[..|rest| - 1], rest[|rest| - 1];
      assert b[..|b| - 1] == [first] + init;
      BigEndianPlaces(first, init);
      assert Pow256(|rest|) == 256 * Pow256(|init|);
      PlaceShift(first, Pow256(|init|), FromBigEndian(init), last);
    }
  }

  lemma {:induction false} PlaceShift(first: nat, p: nat, n: nat, last: nat)
    ensures (first * p + n) * 256 + last == first * (256 * p) + (n * 256 + last)
  {
  }

  /** The low byte of a sample comes first, and the top bit of the high one is the sign. */
  lemma {:induction false} SamplePlaces(s: I16)
    ensures var low: int, high: int := SampleBytes(s)[0], SampleBytes(s)[1];
            s == low + 256 * high - (if high >= 128 then 0x1_0000 else 0)
  {
  }
}

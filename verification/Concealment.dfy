/** The sample arithmetic of concealment and recovery: Java integer division, short
    casts, and the loops that fill the sample arrays. */
module Concealment {
  import opened Common

  /** A Java cast to `short` keeps the low sixteen bits. */
  function ShortCast(x: int): I16 {
    var low := x % 0x1_0000;
    if low >= 0x8000 then low - 0x1_0000 else low
  }

  lemma {:induction false} ShortCastExact(x: int)
    requires -0x8000 <= x < 0x8000
    ensures ShortCast(x) == x
  {
  }

  lemma {:induction false} DivMonotone(a: int, b: int, n: nat)
    requires n > 0 && a <= b
    ensures a / n <= b / n
  {
    var q, p := a / n, b / n;
    assert q * n <= a && b < (p + 1) * n;
    if p < q {
      MulMonotone(p + 1, q, n);
    }
  }

  lemma {:induction false} TruncDivMonotone(a: int, b: int, n: nat)
    requires n > 0 && a <= b
    ensures TruncDiv(a, n) <= TruncDiv(b, n)
  {
    QuotientIs(0, 0, n);
    if a >= 0 {
      DivMonotone(a, b, n);
    } else if b < 0 {
      DivMonotone(-b, -a, n);
    } else {
      DivMonotone(0, -a, n);
      DivMonotone(0, b, n);
    }
  }

  lemma {:induction false} TruncDivOfMultiple(k: int, n: nat)
    requires n > 0
    ensures TruncDiv(k * n, n) == k
  {
    if k >= 0 {
      MulMonotone(0, k, n);
      QuotientIs(k * n, k, n);
    } else {
      MulMonotone(k, -1, n);
      var a := (-k) * n;
      assert a == -(k * n);
      QuotientIs(a, -k, n);
    }
  }

  /** A truncated quotient stays between the integers its operand stays between. */
  lemma {:induction false} TruncDivBetween(lo: int, a: int, hi: int, n: nat)
    requires n > 0 && lo * n <= a <= hi * n
    ensures lo <= TruncDiv(a, n) <= hi
  {
    TruncDivOfMultiple(lo, n);
    TruncDivOfMultiple(hi, n);
    TruncDivMonotone(lo * n, a, n);
    TruncDivMonotone(a, hi * n, n);
  }

  /** `q` is `a / n` rounded toward zero. */
  predicate TowardZero(q: int, a: int, n: nat) {
    (a >= 0 ==> q * n <= a < (q + 1) * n) && (a <= 0 ==> (q - 1) * n < a <= q * n)
  }

  lemma {:induction false} TruncDivIsTowardZero(a: int, n: nat)
    requires n > 0
    ensures TowardZero(TruncDiv(a, n), a, n)
  {
    if a >= 0 {
      QuotientBounds(a, n);
      if a == 0 {
        QuotientIs(0, 0, n);
      }
    } else {
      var q := (-a) / n;
      QuotientBounds(-a, n);
      assert (-q) * n == -(q * n) && (-q - 1) * n == -((q + 1) * n);
    }
  }

  lemma {:induction false} QuotientBounds(a: nat, n: nat)
    requires n > 0
    ensures (a / n) * n <= a < (a / n + 1) * n
  {
    var q := a / n;
    assert a == n * q + a % n;
    assert (q + 1) * n == q * n + n;
  }

  // ---- concealing a missing frame ----

  /** Sample `i` of `n`, on the way from `start` to `end`, before the cast. */
  function RampValue(start: I16, end: I16, i: nat, n: nat): int
    requires i < n
  {
    var delta: int := end - start;
    start + TruncDiv(delta * (i + 1), n)
  }

  predicate Between(x: int, a: int, b: int) {
    Min(a, b) <= x <= Max(a, b)
  }

  lemma {:induction false} RampBetween(start: I16, end: I16, i: nat, n: nat)
    requires i < n
    ensures Between(RampValue(start, end, i, n), start, end)
    ensures i == n - 1 ==> RampValue(start, end, i, n) == end
  {
    var d: int := end - start;
    if d >= 0 {
      ScaledBetween(d, i + 1, n);
      TruncDivBetween(0, d * (i + 1), d, n);
    } else {
      ScaledBetween(-d, i + 1, n);
      NegatedProducts(d, i + 1, n);
      TruncDivBetween(d, d * (i + 1), 0, n);
    }
    if i == n - 1 {
      TruncDivOfMultiple(d, n);
    }
  }

  lemma {:induction false} ScaledBetween(d: nat, x: nat, n: nat)
    requires x <= n
    ensures 0 * n <= d * x <= d * n
  {
  }

  lemma {:induction false} NegatedProducts(d: int, x: nat, n: nat)
    ensures (-d) * x == -(d * x) && (-d) * n == -(d * n)
  {
  }

  lemma {:induction false} RampStep(start: I16, end: I16, i: nat, k: nat, n: nat)
    requires i <= k < n
    ensures start <= end ==> RampValue(start, end, i, n) <= RampValue(start, end, k, n)
    ensures start >= end ==> RampValue(start, end, i, n) >= RampValue(start, end, k, n)
  {
    var d: int := end - start;
    if d >= 0 {
      MulMonotone(i + 1, k + 1, d);
      TruncDivMonotone(d * (i + 1), d * (k + 1), n);
    }
    if d <= 0 {
      MulMonotone(i + 1, k + 1, -d);
      NegatedProducts(d, i + 1, k + 1);
      TruncDivMonotone(d * (k + 1), d * (i + 1), n);
    }
  }

  function Ramp(start: I16, end: I16, n: nat): (r: seq<I16>)
    ensures |r| == n
    ensures forall i :: 0 <= i < n ==> r[i] == ShortCast(RampValue(start, end, i, n))
  {
    seq(n, i requires 0 <= i < n => ShortCast(RampValue(start, end, i, n)))
  }

  /** Samples that move monotonically away from `start` and end exactly at `end`. */
  ghost predicate Glides(r: seq<I16>, start: I16, end: I16) {
    && r != [] && r[|r| - 1] == end
    && (forall i :: 0 <= i < |r| ==> Between(r[i], start, end))
    && (forall i, k :: 0 <= i <= k < |r| ==>
          (start <= end ==> r[i] <= r[k]) && (start >= end ==> r[i] >= r[k]))
  }

  /** Concealed samples glide from the last sample heard to the end sample; no cast loses
      value. */
  lemma {:induction false} RampIsExactAndMonotone(start: I16, end: I16, n: nat)
    requires n > 0
    ensures var r := Ramp(start, end, n);
            Glides(r, start, end) && forall i :: 0 <= i < n ==> r[i] == RampValue(start, end, i, n)
  {
    var r := Ramp(start, end, n);
    forall i | 0 <= i < n
      ensures Between(r[i], start, end) && r[i] == RampValue(start, end, i, n)
      ensures i == n - 1 ==> r[i] == end
    {
      RampBetween(start, end, i, n);
      ShortCastExact(RampValue(start, end, i, n));
    }
    forall i, k | 0 <= i <= k < n
      ensures (start <= end ==> r[i] <= r[k]) && (start >= end ==> r[i] >= r[k])
    {
      RampStep(start, end, i, k, n);
    }
  }

  /** Sample `i` of `r` is where a straight line from `start` to `end` passes after `i + 1`
      of its steps, rounded toward `start`. */
  ghost predicate Interpolates(r: seq<I16>, start: I16, end: I16) {
    forall i :: 0 <= i < |r| ==> StepOfLine(r[i], start, end, i, |r|)
  }

  ghost predicate StepOfLine(x: I16, start: I16, end: I16, i: nat, n: nat) {
    var d: int, gone: int := end - start, x - start;
    TowardZero(gone, d * (i + 1), n)
  }

  lemma {:induction false} RampInterpolates(start: I16, end: I16, n: nat)
    requires n > 0
    ensures Interpolates(Ramp(start, end, n), start, end)
  {
    RampIsExactAndMonotone(start, end, n);
    var r := Ramp(start, end, n);
    forall i | 0 <= i < n ensures StepOfLine(r[i], start, end, i, n) {
      var d: int := end - start;
      TruncDivIsTowardZero(d * (i + 1), n);
    }
  }

  /** The loop of `concealMissingFrame`. */
  method FillRamp(start: I16, end: I16, n: nat) returns (samples: array<I16>)
    ensures fresh(samples) && samples[..] == Ramp(start, end, n)
  {
    samples := new I16[n](_ => 0);
    for index := 0 to n
      invariant forall k :: 0 <= k < index ==> samples[k] == ShortCast(RampValue(start, end, k, n))
    {
      var difference: int := end - start;
      var delta := difference * (index + 1);
      samples[index] := ShortCast(start + TruncDiv(delta, n));
    }
  }

  // ---- recovering after a concealed frame ----

  /** Sample `i` of a transition of `t`: the last sample fading into the new one. */
  function BlendValue(last: I16, sample: I16, i: nat, t: nat): int
    requires i < t
  {
    TruncDiv(last * (t - i - 1) + sample * (i + 1), t)
  }

  lemma {:induction false} BlendBetween(last: I16, sample: I16, i: nat, t: nat)
    requires i < t
    ensures Between(BlendValue(last, sample, i, t), last, sample)
    ensures i == t - 1 ==> BlendValue(last, sample, i, t) == sample
  {
    var a: int, b: int, x: nat, y: nat := last, sample, t - i - 1, i + 1;
    var sum := a * x + b * y;
    var lo, hi := Min(a, b), Max(a, b);
    WeightedSum(a, b, x, y);
    assert x + y == t;
    TruncDivBetween(lo, sum, hi, t);
    if i == t - 1 {
      assert a * x == 0;
      TruncDivOfMultiple(b, t);
    }
  }

  lemma {:induction false} WeightedSum(a: int, b: int, x: nat, y: nat)
    ensures Min(a, b) * (x + y) <= a * x + b * y <= Max(a, b) * (x + y)
  {
    var lo, hi := Min(a, b), Max(a, b);
    MulMonotone(lo, a, x);
    MulMonotone(lo, b, y);
    MulMonotone(a, hi, x);
    MulMonotone(b, hi, y);
    assert lo * (x + y) == lo * x + lo * y;
    assert hi * (x + y) == hi * x + hi * y;
  }

  function Blend(last: I16, samples: seq<I16>, t: nat): (r: seq<I16>)
    requires t <= |samples|
    ensures |r| == |samples|
    ensures forall i :: 0 <= i < |r| ==>
              r[i] == if i < t then ShortCast(BlendValue(last, samples[i], i, t)) else samples[i]
  {
    seq(|samples|, i requires 0 <= i < |samples| =>
      if i < t then ShortCast(BlendValue(last, samples[i], i, t)) else samples[i])
  }

  /** Samples that lie between `last` and the original, and have rejoined the original at
      the end of a transition of `t`. */
  ghost predicate Fades(r: seq<I16>, last: I16, original: seq<I16>, t: nat) {
    && |r| == |original|
    && (forall i :: 0 <= i < |r| && i < t ==> Between(r[i], last, original[i]))
    && (forall i :: 0 <= i < |r| && i >= t - 1 ==> r[i] == original[i])
  }

  /** Recovery samples fade from the last sample into the original; no cast loses value. */
  lemma {:induction false} BlendRejoins(last: I16, samples: seq<I16>, t: nat)
    requires t <= |samples|
    ensures var r := Blend(last, samples, t);
            Fades(r, last, samples, t) && forall i :: 0 <= i < t ==> r[i] == BlendValue(last, samples[i], i, t)
  {
    var r := Blend(last, samples, t);
    forall i | 0 <= i < t
      ensures Between(r[i], last, samples[i]) && r[i] == BlendValue(last, samples[i], i, t)
      ensures i == t - 1 ==> r[i] == samples[i]
    {
      BlendBetween(last, samples[i], i, t);
      ShortCastExact(BlendValue(last, samples[i], i, t));
    }
  }

  /** Sample `i` of the transition weighs the original with `i + 1` parts of `t` and the
      last sample with the rest, rounded toward zero. */
  ghost predicate Weighs(r: seq<I16>, last: I16, original: seq<I16>, t: nat) {
    |r| == |original| && forall i :: 0 <= i < |r| && i < t ==> PartOfBlend(r[i], last, original[i], i, t)
  }

  ghost predicate PartOfBlend(x: I16, last: I16, sample: I16, i: nat, t: nat) {
    var a: int, b: int := last, sample;
    TowardZero(x, a * (t - i - 1) + b * (i + 1), t)
  }

  lemma {:induction false} BlendWeighs(last: I16, samples: seq<I16>, t: nat)
    requires t <= |samples|
    ensures Weighs(Blend(last, samples, t), last, samples, t)
  {
    BlendRejoins(last, samples, t);
    var r := Blend(last, samples, t);
    forall i | 0 <= i < |r| && i < t ensures PartOfBlend(r[i], last, samples[i], i, t) {
      var a: int, b: int := last, samples[i];
      TruncDivIsTowardZero(a * (t - i - 1) + b * (i + 1), t);
    }
  }

  /** The loop of `smoothRecovery`, on a clone of the packet's samples. */
  method FillBlend(last: I16, original: seq<I16>, t: nat) returns (samples: array<I16>)
    requires t <= |original|
    ensures fresh(samples) && samples[..] == Blend(last, original, t)
  {
    samples := new I16[|original|](i requires 0 <= i < |original| => original[i]);
    for index := 0 to t
      invariant forall k :: 0 <= k < index ==> samples[k] == ShortCast(BlendValue(last, original[k], k, t))
      invariant forall k :: index <= k < |original| ==> samples[k] == original[k]
    {
      var oldWeight := t - index - 1;
      var newWeight := index + 1;
      var total: int := last * oldWeight + samples[index] * newWeight;
      samples[index] := ShortCast(TruncDiv(total, t));
    }
  }
}

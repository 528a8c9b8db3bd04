/** What the two jitter buffers share: least and greatest keys of an ordered map,
    and the log of what each insertion or tick did. */
module JitterLog {
  import opened Common

  lemma {:induction false} EmptySet(s: set<int>)
    ensures (forall x :: x !in s) ==> s == {}
  {
    if forall x :: x !in s {
      assert s == {};
    }
  }

  ghost function Pick(s: set<int>): (x: int)
    requires s != {}
    ensures x in s
  {
    EmptySet(s);
    var x :| x in s;
    x
  }

  lemma {:induction false} MapSizes<V>(m: map<int, V>, k: int, v: V)
    ensures k !in m ==> |m[k := v]| == |m| + 1
    ensures k in m ==> |m - {k}| == |m| - 1
  {
    assert m[k := v].Keys == m.Keys + {k};
    assert (m - {k}).Keys == m.Keys - {k};
  }

  lemma {:induction false} LeastExists(s: set<int>)
    requires s != {}
    ensures exists k :: k in s && forall j :: j in s ==> k <= j
  {
    var x := Pick(s);
    if s != {x} {
      var rest := s - {x};
      LeastExists(rest);
      var k :| k in rest && forall j :: j in rest ==> k <= j;
      var least := if k <= x then k else x;
      assert forall j :: j in s ==> j == x || j in rest;
      assert least in s && forall j :: j in s ==> least <= j;
    }
  }

  lemma {:induction false} GreatestExists(s: set<int>)
    requires s != {}
    ensures exists k :: k in s && forall j :: j in s ==> j <= k
  {
    var x := Pick(s);
    if s != {x} {
      var rest := s - {x};
      GreatestExists(rest);
      var k :| k in rest && forall j :: j in rest ==> j <= k;
      var greatest := if k <= x then x else k;
      assert forall j :: j in s ==> j == x || j in rest;
      assert greatest in s && forall j :: j in s ==> j <= greatest;
    }
  }

  function FirstKey(s: set<int>): (k: int)
    requires s != {}
    ensures k in s && forall j :: j in s ==> k <= j
  {
    LeastExists(s);
    var k :| k in s && forall j :: j in s ==> k <= j;
    k
  }

  function LastKey(s: set<int>): (k: int)
    requires s != {}
    ensures k in s && forall j :: j in s ==> j <= k
  {
    GreatestExists(s);
    var k :| k in s && forall j :: j in s ==> j <= k;
    k
  }

  /** What one call did: the first four for `insert`, the rest for `tick`. */
  datatype Effect =
    | Stored
    | Duplicate
    | Late
    | Overflowed
    | Emitted(sequence: int)
    | Missed
    | Idle

  /** What a buffer holds: the frames by sequence, the playout position, whether playout has
      begun, and its counters. */
  datatype Buffer<F, S> = Held(frames: map<int, F>, next: Option<int>, started: bool, books: S)

  datatype Config = Config(capacity: nat, target: nat) {
    /** What both constructors accept. */
    predicate Valid() {
      0 < target <= capacity
    }
  }

  function InsertEffect<F, S>(c: Config, j: Buffer<F, S>, sequence: int): Effect {
    if j.next.Some? && sequence < j.next.value then Late
    else if sequence in j.frames then Duplicate
    else if |j.frames| == c.capacity then Overflowed
    else Stored
  }

  /** The position a tick plays from, if playout has begun or begins now. */
  function Position<F, S>(c: Config, j: Buffer<F, S>): Option<int>
    requires c.Valid()
  {
    if j.started then j.next
    else if |j.frames| < c.target then None
    else Some(FirstKey(j.frames.Keys))
  }

  function PlayEffect<F, S>(j: Buffer<F, S>, at: int): Effect {
    if at in j.frames then Emitted(at) else Missed
  }

  function TickEffect<F, S>(c: Config, j: Buffer<F, S>): Effect
    requires c.Valid()
  {
    match Position(c, j)
    case None => Idle
    case Some(at) => PlayEffect(j, at)
  }

  /** True counts, without the width of the source's counters. */
  datatype Tally = Tally(
    received: nat, emitted: nat, duplicate: nat, late: nat, missing: nat, overflow: nat)

  const ZERO := Tally(0, 0, 0, 0, 0, 0)

  function Bump(t: Tally, e: Effect): Tally {
    match e
    case Stored => t.(received := t.received + 1)
    case Duplicate => t.(received := t.received + 1, duplicate := t.duplicate + 1)
    case Late => t.(received := t.received + 1, late := t.late + 1)
    case Overflowed => t.(received := t.received + 1, overflow := t.overflow + 1)
    case Emitted(_) => t.(emitted := t.emitted + 1)
    case Missed => t.(missing := t.missing + 1)
    case Idle => t
  }

  function TallyOf(log: seq<Effect>): Tally {
    if log == [] then ZERO else Bump(TallyOf(log[..|log| - 1]), log[|log| - 1])
  }

  function Emitting(out: seq<int>, e: Effect): seq<int> {
    if e.Emitted? then out + [e.sequence] else out
  }

  /** The sequences emitted, in order. */
  function Emissions(log: seq<Effect>): seq<int> {
    if log == [] then []
    else Emitting(Emissions(log[..|log| - 1]), log[|log| - 1])
  }

  ghost predicate Increasing(s: seq<int>) {
    forall i, j :: 0 <= i < j < |s| ==> s[i] < s[j]
  }

  lemma {:induction false} LogSnoc(log: seq<Effect>, e: Effect)
    ensures TallyOf(log + [e]) == Bump(TallyOf(log), e)
    ensures Emissions(log + [e]) == Emitting(Emissions(log), e)
  {
    assert (log + [e])[..|log|] == log;
  }
}

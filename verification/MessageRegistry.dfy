/** Duplicate suppression for outbound messages: an operation is started at most once
    until it fails, or until enough later ones have been accepted to push it out of the
    bounded memory. */
module MessageRegistry {
  import opened Common
  import Hex

  datatype OperationId = OperationId(text: string)

  /** `MessageOperationId::new`: 32 hexadecimal digits, kept in lower case. */
  function NewOperationId(text: string): Option<OperationId> {
    if |text| != 32 || !Hex.AllHex(text) then None else Some(OperationId(Hex.Lowered(text)))
  }

  /** An identifier is 32 digits or letters from a to f of either case. */
  lemma {:induction false} OperationIdExactly(text: string)
    ensures NewOperationId(text).Some?
       <==> && |text| == 32
            && forall i :: 0 <= i < |text| ==>
                 '0' <= text[i] <= '9' || 'a' <= text[i] <= 'f' || 'A' <= text[i] <= 'F'
  {
  }

  /** Two texts name the same operation exactly when they denote the same sixteen bytes. */
  lemma {:induction false} SameOperation(a: string, b: string)
    requires NewOperationId(a).Some? && NewOperationId(b).Some?
    ensures NewOperationId(a) == NewOperationId(b) <==> Hex.Decode(a) == Hex.Decode(b)
  {
    Hex.EncodeDecode(a);
    Hex.EncodeDecode(b);
    if NewOperationId(a) == NewOperationId(b) {
      Hex.DecodeEncode(Hex.Decode(a));
      Hex.DecodeEncode(Hex.Decode(b));
    }
  }

  datatype Start = New | InFlight | AcceptedDuplicate

  datatype Registry = Registry(inFlight: set<OperationId>, accepted: set<OperationId>, order: seq<OperationId>)

  const EMPTY := Registry({}, {}, [])

  // ---- the registry as a state machine ----

  function Answer(r: Registry, id: OperationId): Start {
    if id in r.accepted then AcceptedDuplicate else if id in r.inFlight then InFlight else New
  }

  function Begin(r: Registry, id: OperationId): Registry {
    if Answer(r, id).New? then r.(inFlight := r.inFlight + {id}) else r
  }

  /** Forgets the oldest accepted operations beyond the capacity. */
  function Trim(r: Registry, capacity: nat): Registry
    decreases |r.order|
  {
    if |r.order| <= capacity then r
    else Trim(r.(order := r.order[1..], accepted := r.accepted - {r.order[0]}), capacity)
  }

  function Remember(r: Registry, id: OperationId): Registry {
    var settled := r.(inFlight := r.inFlight - {id});
    if id in r.accepted then settled
    else settled.(accepted := r.accepted + {id}, order := r.order + [id])
  }

  function Accept(r: Registry, id: OperationId, capacity: nat): Registry {
    Trim(Remember(r, id), capacity)
  }

  function Fail(r: Registry, id: OperationId): Registry {
    r.(inFlight := r.inFlight - {id})
  }

  class MessageOperationRegistry {
    const capacity: nat
    var inFlight: set<OperationId>
    var accepted: set<OperationId>
    var order: seq<OperationId>

    function View(): Registry
      reads this
    {
      Registry(inFlight, accepted, order)
    }

    constructor (capacity: nat)
      ensures View() == EMPTY && this.capacity == Max(1, capacity)
    {
      this.capacity := if capacity == 0 then 1 else capacity;
      inFlight, accepted, order := {}, {}, [];
    }

    method BeginOperation(id: OperationId) returns (r: Start)
      modifies this
      ensures r == Answer(old(View()), id) && View() == Begin(old(View()), id)
    {
      if id in accepted {
        return AcceptedDuplicate;
      }
      if id in inFlight {
        return InFlight;
      }
      inFlight := inFlight + {id};
      return New;
    }

    method AcceptOperation(id: OperationId)
      modifies this
      ensures View() == Accept(old(View()), id, capacity)
    {
      inFlight := inFlight - {id};
      if id !in accepted {
        accepted := accepted + {id};
        order := order + [id];
      }
      while |order| > capacity
        invariant Trim(View(), capacity) == Accept(old(View()), id, capacity)
      {
        var expired := order[0];
        order := order[1..];
        accepted := accepted - {expired};
      }
    }

    method FailOperation(id: OperationId)
      modifies this
      ensures View() == Fail(old(View()), id)
    {
      inFlight := inFlight - {id};
    }
  }

  // ---- every reachable state ----

  datatype Event = Started(id: OperationId) | Accepted(id: OperationId) | Failed(id: OperationId)

  function Step(r: Registry, e: Event, capacity: nat): Registry {
    match e
    case Started(id) => Begin(r, id)
    case Accepted(id) => Accept(r, id, capacity)
    case Failed(id) => Fail(r, id)
  }

  ghost function Run(events: seq<Event>, capacity: nat): Registry {
    if events == [] then EMPTY
    else Step(Run(events[..|events| - 1], capacity), events[|events| - 1], capacity)
  }

  ghost predicate Consistent(r: Registry, capacity: nat) {
    && Distinct(r.order) && |r.order| <= capacity
    && (forall id :: id in r.accepted <==> id in r.order)
    && r.inFlight !! r.accepted
  }

  /** One acceptance, seen through the order: it goes to the end, and if that is one
      too many, the oldest leaves. */
  lemma {:induction false} AcceptShape(r: Registry, id: OperationId, capacity: nat)
    requires Consistent(r, capacity) && capacity > 0
    ensures var after := Accept(r, id, capacity);
            && Consistent(after, capacity)
            && after.inFlight == r.inFlight - {id}
            && after.order == if id in r.accepted then r.order
                              else if |r.order| < capacity then r.order + [id]
                              else r.order[1..] + [id]
  {
    var mid := Remember(r, id);
    if id !in r.accepted {
      assert mid.order == r.order + [id];
      if |r.order| == capacity {
        var trimmed := mid.(order := mid.order[1..], accepted := mid.accepted - {mid.order[0]});
        assert trimmed.order == r.order[1..] + [id];
        assert Trim(mid, capacity) == trimmed;
        forall x ensures x in trimmed.accepted <==> x in trimmed.order {
          ShiftedMembers(r.order, id, x);
        }
      }
    }
  }

  lemma {:induction false} ShiftedMembers(order: seq<OperationId>, id: OperationId, x: OperationId)
    requires Distinct(order) && id !in order && order != []
    ensures x in order[1..] + [id] <==> (x in order || x == id) && x != order[0]
  {
    if x in order && x != order[0] {
      var i :| 0 <= i < |order| && order[i] == x;
      assert order[1..][i - 1] == x;
    }
    if x in order[1..] {
      var i :| 0 <= i < |order| - 1 && order[1..][i] == x;
      assert order[i + 1] == x;
    }
  }

  /** In every run, whatever is called on whatever identifier: the accepted set is the
      elements of the acceptance order, which has no repetition and at most `capacity`
      elements, and no operation is both accepted and in flight. */
  lemma {:induction false} RunConsistent(events: seq<Event>, capacity: nat)
    requires capacity > 0
    ensures Consistent(Run(events, capacity), capacity)
  {
    if events != [] {
      var init, e := events[..|events| - 1], events[|events| - 1];
      RunConsistent(init, capacity);
      if e.Accepted? {
        AcceptShape(Run(init, capacity), e.id, capacity);
      }
    }
  }

  // ---- at most once ----

  /** Operations other than `id` accepted strictly between `k` and `m`. */
  ghost function Others(events: seq<Event>, k: nat, m: nat, id: OperationId): set<OperationId>
    requires m <= |events|
  {
    set q | k < q < m && events[q].Accepted? && events[q].id != id :: events[q].id
  }

  /** `id` is remembered, and everything remembered after it is in `others`. */
  ghost predicate Remembered(order: seq<OperationId>, id: OperationId, others: set<OperationId>) {
    exists p: nat :: StandsAt(order, id, others, p)
  }

  datatype Progress = StillInFlight | Waiting(k: nat) | Parted(k: nat)

  /** Event `k` ended the operation: it failed, or it was accepted and at least
      `capacity` different operations were accepted after it. */
  ghost predicate Parts(events: seq<Event>, i: nat, k: nat, m: nat, id: OperationId, capacity: nat)
    requires m <= |events|
  {
    && i < k < m
    && (events[k] == Failed(id) || (events[k] == Accepted(id) && |Others(events, k, m, id)| >= capacity))
  }

  /** What has become, by step `m`, of an operation started at step `i`. */
  ghost predicate Stands(events: seq<Event>, i: nat, m: nat, id: OperationId, capacity: nat, p: Progress)
    requires m <= |events|
  {
    var r := Run(events[..m], capacity);
    match p
    case StillInFlight => id in r.inFlight
    case Waiting(k) =>
      i < k < m && events[k] == Accepted(id) && Remembered(r.order, id, Others(events, k, m, id))
    case Parted(k) => Parts(events, i, k, m, id, capacity)
  }

  lemma {:induction false} DistinctCount(s: seq<OperationId>, t: set<OperationId>)
    requires Distinct(s) && forall i :: 0 <= i < |s| ==> s[i] in t
    ensures |s| <= |t|
  {
    if s != [] {
      var last := s[|s| - 1];
      DistinctCount(s[..|s| - 1], t - {last});
    }
  }

  lemma {:induction false} OthersGrow(events: seq<Event>, k: nat, m: nat, id: OperationId)
    requires k < m < |events|
    ensures Others(events, k, m, id) <= Others(events, k, m + 1, id)
    ensures events[m].Accepted? && events[m].id != id ==> events[m].id in Others(events, k, m + 1, id)
    ensures |Others(events, k, m, id)| <= |Others(events, k, m + 1, id)|
  {
    var a, b := Others(events, k, m, id), Others(events, k, m + 1, id);
    assert |b - a| == |b| - |a|;
  }

  /** `id` stands at `p`, and everything after it is in `others`. */
  ghost predicate StandsAt(order: seq<OperationId>, id: OperationId, others: set<OperationId>, p: nat) {
    p < |order| && order[p] == id && forall q :: p < q < |order| ==> order[q] in others
  }

  lemma {:induction false} Appended(order: seq<OperationId>, id: OperationId, others: set<OperationId>, p: nat, x: OperationId)
    requires StandsAt(order, id, others, p) && x in others
    ensures StandsAt(order + [x], id, others, p)
    ensures p > 0 ==> StandsAt(order[1..] + [x], id, others, p - 1)
    ensures p == 0 ==> forall q :: 0 <= q < |order| ==> (order[1..] + [x])[q] in others
  {
  }

  /** A remembered operation stays remembered, or is pushed out by `capacity` others. */
  lemma {:induction false} WaitingStep(
      r: Registry, x: OperationId, id: OperationId, others: set<OperationId>, more: set<OperationId>, capacity: nat)
    requires Consistent(r, capacity) && capacity > 0 && Remembered(r.order, id, others)
    requires others <= more && (x != id ==> x in more)
    ensures Remembered(Accept(r, x, capacity).order, id, more) || |more| >= capacity
  {
    AcceptShape(r, x, capacity);
    var after := Accept(r, x, capacity).order;
    var p: nat :| StandsAt(r.order, id, others, p);
    assert StandsAt(r.order, id, more, p);
    if x !in r.accepted {
      Appended(r.order, id, more, p, x);
      if |r.order| == capacity && p == 0 {
        DistinctCount(after, more);
      }
    }
  }

  lemma {:induction false} TrackStep(
      events: seq<Event>, i: nat, m: nat, id: OperationId, capacity: nat, p: Progress) returns (n: Progress)
    requires capacity > 0 && i < m < |events| && Stands(events, i, m, id, capacity, p)
    ensures Stands(events, i, m + 1, id, capacity, n)
  {
    var r, e := Run(events[..m], capacity), events[m];
    assert events[..m + 1][..m] == events[..m];
    RunConsistent(events[..m], capacity);
    match p
    case StillInFlight =>
      if e.Accepted? {
        AcceptShape(r, e.id, capacity);
      }
      if e == Accepted(id) {
        var order := Accept(r, id, capacity).order;
        assert StandsAt(order, id, Others(events, m, m + 1, id), |order| - 1);
        n := Waiting(m);
      } else if e == Failed(id) {
        n := Parted(m);
      } else {
        n := StillInFlight;
      }
    case Waiting(k) =>
      OthersGrow(events, k, m, id);
      var others, more := Others(events, k, m, id), Others(events, k, m + 1, id);
      if e.Accepted? {
        WaitingStep(r, e.id, id, others, more, capacity);
        n := if Remembered(Accept(r, e.id, capacity).order, id, more) then Waiting(k) else Parted(k);
      } else {
        var q: nat :| StandsAt(r.order, id, others, q);
        assert StandsAt(r.order, id, more, q);
        n := Waiting(k);
      }
    case Parted(k) =>
      OthersGrow(events, k, m, id);
      n := Parted(k);
  }

  lemma {:induction false} Track(events: seq<Event>, i: nat, m: nat, id: OperationId, capacity: nat) returns (p: Progress)
    requires capacity > 0 && i < m <= |events| && events[i] == Started(id)
    requires Answer(Run(events[..i], capacity), id).New?
    ensures Stands(events, i, m, id, capacity, p)
  {
    if m == i + 1 {
      assert events[..m][..i] == events[..i];
      p := StillInFlight;
    } else {
      var q := Track(events, i, m - 1, id, capacity);
      p := TrackStep(events, i, m - 1, id, capacity, q);
    }
  }

  /** At most once. If one identifier is answered `New` at steps `i` and `j`, then in
      between it failed, or it was accepted and at least `capacity` different operations
      were accepted after it. */
  lemma {:induction false} AtMostOnce(events: seq<Event>, i: nat, j: nat, id: OperationId, capacity: nat)
    requires capacity > 0 && i < j < |events|
    requires events[i] == Started(id) && Answer(Run(events[..i], capacity), id).New?
    requires events[j] == Started(id) && Answer(Run(events[..j], capacity), id).New?
    ensures exists k :: Parts(events, i, k, j, id, capacity)
  {
    var p := Track(events, i, j, id, capacity);
    RunConsistent(events[..j], capacity);
  }

  // ---- how long an acceptance is remembered ----

  ghost function AcceptAll(r: Registry, ids: seq<OperationId>, capacity: nat): Registry {
    if ids == [] then r else Accept(AcceptAll(r, ids[..|ids| - 1], capacity), ids[|ids| - 1], capacity)
  }

  lemma {:induction false} AcceptNew(r: Registry, whole: seq<OperationId>, id: OperationId, capacity: nat)
    requires Consistent(r, capacity) && capacity > 0 && r.order == Last(whole, capacity) && id !in whole
    ensures var after := Accept(r, id, capacity);
            && Consistent(after, capacity) && after.order == Last(whole + [id], capacity) && after.inFlight <= r.inFlight
  {
    AcceptShape(r, id, capacity);
    assert id !in r.order;
    LastPush(whole, capacity, id);
  }

  lemma {:induction false} AcceptAllOrder(r: Registry, ids: seq<OperationId>, capacity: nat)
    requires Consistent(r, capacity) && capacity > 0 && Distinct(r.order + ids)
    ensures var after := AcceptAll(r, ids, capacity);
            Consistent(after, capacity) && after.order == Last(r.order + ids, capacity) && after.inFlight <= r.inFlight
  {
    if ids == [] {
      assert r.order + ids == r.order;
    } else {
      var init, id := ids[..|ids| - 1], ids[|ids| - 1];
      assert r.order + ids == r.order + init + [id];
      DistinctInit(r.order + init, id);
      AcceptAllOrder(r, init, capacity);
      AcceptNew(AcceptAll(r, init, capacity), r.order + init, id, capacity);
    }
  }

  lemma {:induction false} DistinctInit(s: seq<OperationId>, x: OperationId)
    requires Distinct(s + [x])
    ensures Distinct(s) && x !in s
  {
    var all := s + [x];
    assert all[|s|] == x && forall i :: 0 <= i < |s| ==> all[i] == s[i];
  }

  /** The memory is bounded: after an operation is accepted, exactly `capacity` further
      acceptances of different operations make it startable again. */
  lemma {:induction false} RememberedExactly(r: Registry, others: seq<OperationId>, id: OperationId, capacity: nat)
    requires Consistent(r, capacity) && capacity > 0 && Distinct(r.order + others)
    requires r.order != [] && r.order[|r.order| - 1] == id
    ensures var after := AcceptAll(r, others, capacity);
            Answer(after, id) == if |others| < capacity then AcceptedDuplicate else New
  {
    AcceptAllOrder(r, others, capacity);
    var whole, after := r.order + others, AcceptAll(r, others, capacity);
    var at := |r.order| - 1;
    assert whole[at] == id && id in r.accepted;
    if |others| < capacity {
      LastContains(whole, capacity, at);
    } else {
      assert id !in Last(whole, capacity);
    }
  }

  // ---- what each answer means ----

  lemma {:induction false} RunSnoc(init: seq<Event>, e: Event, capacity: nat)
    ensures Run(init + [e], capacity) == Step(Run(init, capacity), e, capacity)
  {
    assert (init + [e])[..|init|] == init;
  }

  /** Step `i` started the operation, and no later one accepted it or let it fail. */
  ghost predicate OpenSince(events: seq<Event>, i: nat, id: OperationId, capacity: nat) {
    && i < |events| && events[i] == Started(id) && Answer(Run(events[..i], capacity), id).New?
    && forall j :: i < j < |events| ==> events[j] != Accepted(id) && events[j] != Failed(id)
  }

  lemma {:induction false} OpenSnoc(init: seq<Event>, e: Event, id: OperationId, capacity: nat)
    ensures (exists i: nat :: OpenSince(init + [e], i, id, capacity))
       <==> || (e == Started(id) && Answer(Run(init, capacity), id).New?)
            || (e != Accepted(id) && e != Failed(id) && exists i: nat :: OpenSince(init, i, id, capacity))
  {
    var events := init + [e];
    assert events[..|init|] == init && events[|init|] == e;
    assert forall j :: 0 <= j < |init| ==> events[j] == init[j];
    if e == Started(id) && Answer(Run(init, capacity), id).New? {
      assert OpenSince(events, |init|, id, capacity);
    }
    if e != Accepted(id) && e != Failed(id) {
      if i: nat :| OpenSince(init, i, id, capacity) {
        assert events[..i] == init[..i];
        assert OpenSince(events, i, id, capacity);
      }
    }
    if i: nat :| OpenSince(events, i, id, capacity) {
      if i < |init| {
        assert events[..i] == init[..i];
        assert events[|init|] != Accepted(id) && events[|init|] != Failed(id);
        assert OpenSince(init, i, id, capacity);
      }
    }
  }

  lemma {:induction false} InFlightStep(r: Registry, e: Event, id: OperationId, capacity: nat)
    requires Consistent(r, capacity) && capacity > 0
    ensures id in Step(r, e, capacity).inFlight
       <==> || (e == Started(id) && Answer(r, id).New?)
            || (e != Accepted(id) && e != Failed(id) && id in r.inFlight)
  {
    if e.Accepted? {
      AcceptShape(r, e.id, capacity);
    }
  }

  /** In every trace an operation is in flight exactly while it has been started and
      neither accepted nor failed since, and then it is answered so. */
  lemma {:induction false} InFlightExactly(events: seq<Event>, id: OperationId, capacity: nat)
    requires capacity > 0
    ensures id in Run(events, capacity).inFlight <==> exists i: nat :: OpenSince(events, i, id, capacity)
    ensures Answer(Run(events, capacity), id).InFlight? <==> exists i: nat :: OpenSince(events, i, id, capacity)
  {
    RunConsistent(events, capacity);
    if events != [] {
      var init, e := events[..|events| - 1], events[|events| - 1];
      InFlightExactly(init, id, capacity);
      RunConsistent(init, capacity);
      InFlightStep(Run(init, capacity), e, id, capacity);
      OpenSnoc(init, e, id, capacity);
      assert events == init + [e];
    }
  }

  /** The acceptances of a trace that were not repetitions of a remembered one. */
  ghost function AcceptLog(events: seq<Event>, capacity: nat): seq<OperationId> {
    if events == [] then []
    else
      var init, e := events[..|events| - 1], events[|events| - 1];
      if e.Accepted? && e.id !in Run(init, capacity).accepted then AcceptLog(init, capacity) + [e.id]
      else AcceptLog(init, capacity)
  }

  lemma {:induction false} OrderStep(r: Registry, log: seq<OperationId>, e: Event, capacity: nat)
    requires Consistent(r, capacity) && capacity > 0 && r.order == Last(log, capacity)
    ensures Step(r, e, capacity).order
         == Last(if e.Accepted? && e.id !in r.accepted then log + [e.id] else log, capacity)
  {
    if e.Accepted? {
      AcceptShape(r, e.id, capacity);
      LastPush(log, capacity, e.id);
    }
  }

  /** In every trace the operations answered as accepted are the last `capacity` of them. */
  lemma {:induction false} AcceptedExactly(events: seq<Event>, id: OperationId, capacity: nat)
    requires capacity > 0
    ensures Run(events, capacity).order == Last(AcceptLog(events, capacity), capacity)
    ensures Answer(Run(events, capacity), id).AcceptedDuplicate? <==> id in Last(AcceptLog(events, capacity), capacity)
  {
    RunConsistent(events, capacity);
    if events != [] {
      var init, e := events[..|events| - 1], events[|events| - 1];
      AcceptedExactly(init, id, capacity);
      RunConsistent(init, capacity);
      OrderStep(Run(init, capacity), AcceptLog(init, capacity), e, capacity);
    }
  }

  /** An operation that has failed can be started again, unless it is remembered as
      accepted. */
  lemma {:induction false} FailedCanRestart(events: seq<Event>, id: OperationId, capacity: nat)
    requires capacity > 0
    ensures Answer(Run(events + [Failed(id)], capacity), id)
         == if id in Last(AcceptLog(events, capacity), capacity) then AcceptedDuplicate else New
  {
    AcceptedExactly(events, id, capacity);
    RunSnoc(events, Failed(id), capacity);
  }
}

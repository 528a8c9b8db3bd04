/** The opaque identifiers under which conversations are shown to clients. */
module Aliasing {
  import opened Common
  import Hex

  /** A conversation key or an identifier shown for one. */
  datatype Name = Name(text: string)

  /** The next answers of the random source, one per attempt; `None` is a failure. */
  type Draws = d: seq<Option<Bytes>> | |d| == 4 witness [None, None, None, None]

  datatype Aliases = Aliases(keyToId: map<Name, Name>, idToKey: map<Name, Name>)

  const EMPTY := Aliases(map[], map[])

  /** The two maps are inverses of each other. */
  ghost predicate Inverse(a: Aliases) {
    && (forall k :: k in a.keyToId ==> a.keyToId[k] in a.idToKey && a.idToKey[a.keyToId[k]] == k)
    && (forall i :: i in a.idToKey ==> a.idToKey[i] in a.keyToId && a.keyToId[a.idToKey[i]] == i)
  }

  function Bind(a: Aliases, key: Name, id: Name): Aliases {
    Aliases(a.keyToId[key := id], a.idToKey[id := key])
  }

  /** The first of the remaining draws that names no conversation yet; none if a draw
      fails first or they run out. */
  function FreshId(a: Aliases, draws: seq<Option<Bytes>>): Option<Name> {
    if draws == [] || draws[0].None? then None
    else
      var id := Name(Hex.Encode(draws[0].value));
      if id in a.idToKey then FreshId(a, draws[1..]) else Some(id)
  }

  datatype Request = ExposeStable(key: Name) | Opaque(key: Name, draws: Draws)

  /** The identifier a request is answered with; none when the service is unavailable. */
  function Answer(a: Aliases, r: Request): Option<Name> {
    if r.key in a.keyToId then Some(a.keyToId[r.key])
    else match r
      case ExposeStable(key) => if key in a.idToKey && a.idToKey[key] != key then None else Some(key)
      case Opaque(key, draws) => FreshId(a, draws)
  }

  function Step(a: Aliases, r: Request): Aliases {
    match Answer(a, r)
    case None => a
    case Some(id) => if r.key in a.keyToId then a else Bind(a, r.key, id)
  }

  function Lookup(m: map<Name, Name>, name: Name): Option<Name> {
    if name in m then Some(m[name]) else None
  }

  class ConversationAliases {
    var keyToId: map<Name, Name>
    var idToKey: map<Name, Name>

    function View(): Aliases
      reads this
    {
      Aliases(keyToId, idToKey)
    }

    constructor ()
      ensures View() == EMPTY
    {
      keyToId, idToKey := map[], map[];
    }

    method ExposeStableId(key: Name) returns (r: Option<Name>)
      modifies this
      ensures r == Answer(old(View()), ExposeStable(key)) && View() == Step(old(View()), ExposeStable(key))
    {
      if key in keyToId {
        return Some(keyToId[key]);
      }
      if key in idToKey && idToKey[key] != key {
        return None;
      }
      keyToId := keyToId[key := key];
      idToKey := idToKey[key := key];
      return Some(key);
    }

    method IdFor(key: Name, draws: Draws) returns (r: Option<Name>)
      modifies this
      ensures r == Answer(old(View()), Opaque(key, draws)) && View() == Step(old(View()), Opaque(key, draws))
    {
      if key in keyToId {
        return Some(keyToId[key]);
      }
      for i := 0 to 4
        invariant View() == old(View()) && FreshId(View(), draws) == FreshId(View(), draws[i..])
      {
        if draws[i].None? {
          return None;
        }
        var id := Name(Hex.Encode(draws[i].value));
        if id !in idToKey {
          keyToId := keyToId[key := id];
          idToKey := idToKey[id := key];
          return Some(id);
        }
        assert draws[i..][1..] == draws[i + 1..];
      }
      return None;
    }

    method KeyFor(id: Name) returns (r: Option<Name>)
      ensures r == Lookup(idToKey, id)
    {
      return if id in idToKey then Some(idToKey[id]) else None;
    }
  }

  // ---- every run ----

  lemma {:induction false} FreshIsUnused(a: Aliases, draws: seq<Option<Bytes>>)
    ensures FreshId(a, draws).Some? ==> FreshId(a, draws).value !in a.idToKey
  {
    if draws != [] && draws[0].Some? {
      FreshIsUnused(a, draws[1..]);
    }
  }

  predicate Taken(a: Aliases, draw: Option<Bytes>) {
    draw.Some? && Name(Hex.Encode(draw.value)) in a.idToKey
  }

  /** The first `n` draws are in use, and the next one fails or there is none. */
  ghost predicate Exhausted(a: Aliases, draws: seq<Option<Bytes>>, n: nat) {
    n <= |draws| && (n < |draws| ==> draws[n].None?) && forall i :: 0 <= i < n ==> Taken(a, draws[i])
  }

  lemma {:induction false} ExhaustedTail(a: Aliases, draws: seq<Option<Bytes>>, n: nat)
    requires draws != [] && Taken(a, draws[0])
    ensures Exhausted(a, draws, n + 1) <==> Exhausted(a, draws[1..], n)
  {
    if Exhausted(a, draws, n + 1) {
      assert n < |draws| - 1 ==> draws[1..][n] == draws[n + 1];
      assert forall i :: 0 <= i < n ==> draws[1..][i] == draws[i + 1];
    }
    if Exhausted(a, draws[1..], n) {
      forall i | 0 <= i < n + 1 ensures Taken(a, draws[i]) {
        assert i > 0 ==> draws[i] == draws[1..][i - 1];
      }
    }
  }

  /** No identifier comes out exactly when every draw before the first failed one, or
      else every draw, is already in use. */
  lemma {:induction false} NoFreshIdExactly(a: Aliases, draws: seq<Option<Bytes>>)
    ensures FreshId(a, draws).None? <==> exists n :: Exhausted(a, draws, n)
  {
    if draws == [] || draws[0].None? {
      assert Exhausted(a, draws, 0);
    } else if Taken(a, draws[0]) {
      NoFreshIdExactly(a, draws[1..]);
      if n :| Exhausted(a, draws[1..], n) {
        ExhaustedTail(a, draws, n);
      }
      if n: nat :| Exhausted(a, draws, n) {
        ExhaustedTail(a, draws, n - 1);
      }
    }
  }

  /** Every binding of `a` is still there in `b`. */
  ghost predicate Extends(b: Aliases, a: Aliases) {
    && (forall k :: k in a.keyToId ==> k in b.keyToId && b.keyToId[k] == a.keyToId[k])
    && (forall i :: i in a.idToKey ==> i in b.idToKey && b.idToKey[i] == a.idToKey[i])
  }

  /** A request keeps the maps inverse and every identifier already issued, and binds the
      identifier it answers to the key it was asked for. */
  lemma {:induction false} StepKeeps(a: Aliases, r: Request)
    requires Inverse(a)
    ensures Inverse(Step(a, r)) && Extends(Step(a, r), a)
    ensures Answer(a, r).Some? ==> Lookup(Step(a, r).idToKey, Answer(a, r).value) == Some(r.key)
  {
    if r.key !in a.keyToId && Answer(a, r).Some? {
      var id := Answer(a, r).value;
      if r.Opaque? {
        FreshIsUnused(a, r.draws);
      }
      assert id !in a.idToKey;
    }
  }

  ghost function Run(requests: seq<Request>): Aliases {
    if requests == [] then EMPTY else Step(Run(requests[..|requests| - 1]), requests[|requests| - 1])
  }

  lemma {:induction false} RunInverse(requests: seq<Request>)
    ensures Inverse(Run(requests))
  {
    if requests != [] {
      RunInverse(requests[..|requests| - 1]);
      StepKeeps(Run(requests[..|requests| - 1]), requests[|requests| - 1]);
    }
  }

  lemma {:induction false} PrefixExtends(requests: seq<Request>, m: nat)
    requires m <= |requests|
    ensures Extends(Run(requests), Run(requests[..m]))
  {
    if m == |requests| {
      assert requests[..m] == requests;
    } else {
      var init := requests[..|requests| - 1];
      PrefixExtends(init, m);
      assert init[..m] == requests[..m];
      RunInverse(init);
      StepKeeps(Run(init), requests[|requests| - 1]);
    }
  }

  /** An identifier, once answered, names its conversation for the rest of the run. */
  lemma {:induction false} IssuedForGood(requests: seq<Request>, i: nat)
    requires i < |requests| && Answer(Run(requests[..i]), requests[i]).Some?
    ensures Lookup(Run(requests).idToKey, Answer(Run(requests[..i]), requests[i]).value) == Some(requests[i].key)
  {
    assert requests[..i + 1][..i] == requests[..i];
    RunInverse(requests[..i]);
    StepKeeps(Run(requests[..i]), requests[i]);
    PrefixExtends(requests, i + 1);
  }

  /** Two answers anywhere in a run are the same identifier exactly when they are for
      the same conversation. */
  lemma {:induction false} IdentifiersAreFaithful(requests: seq<Request>, i: nat, j: nat)
    requires i < |requests| && Answer(Run(requests[..i]), requests[i]).Some?
    requires j < |requests| && Answer(Run(requests[..j]), requests[j]).Some?
    ensures Answer(Run(requests[..i]), requests[i]) == Answer(Run(requests[..j]), requests[j])
            <==> requests[i].key == requests[j].key
  {
    IssuedForGood(requests, i);
    IssuedForGood(requests, j);
    RunInverse(requests);
  }

  // ---- which identifier is answered ----

  /** A stable identifier is the key itself, unless that already names another
      conversation. */
  lemma {:induction false} StableIsTheKey(a: Aliases, key: Name)
    requires Inverse(a) && key !in a.keyToId
    ensures Answer(a, ExposeStable(key)) == if key in a.idToKey then None else Some(key)
  {
  }

  /** An opaque identifier is the text of the first draw that is not in use. */
  lemma {:induction false} OpaqueIsDrawn(a: Aliases, key: Name, draws: Draws, id: Name)
    requires key !in a.keyToId && Answer(a, Opaque(key, draws)) == Some(id)
    ensures exists n :: && 0 <= n < 4 && draws[n].Some? && id == Name(Hex.Encode(draws[n].value)) && id !in a.idToKey
                        && forall i :: 0 <= i < n ==> Taken(a, draws[i])
  {
    var n := FirstUnused(a, draws, id);
  }

  lemma {:induction false} FirstUnused(a: Aliases, draws: seq<Option<Bytes>>, id: Name) returns (n: nat)
    requires FreshId(a, draws) == Some(id)
    ensures n < |draws| && draws[n].Some? && id == Name(Hex.Encode(draws[n].value)) && id !in a.idToKey
    ensures forall i :: 0 <= i < n ==> Taken(a, draws[i])
  {
    if Taken(a, draws[0]) {
      n := FirstUnused(a, draws[1..], id);
      forall i | 0 <= i < n + 1 ensures Taken(a, draws[i]) {
        assert i > 0 ==> draws[i] == draws[1..][i - 1];
      }
      n := n + 1;
    } else {
      n := 0;
    }
  }

  /** A conversation that has an identifier keeps it, whoever asks. */
  lemma {:induction false} KnownKeepsIdentifier(a: Aliases, r: Request)
    requires r.key in a.keyToId
    ensures Answer(a, r) == Some(a.keyToId[r.key]) && Step(a, r) == a
  {
  }
}

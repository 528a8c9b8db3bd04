/** Call-media grants, leases and the one-session registry, under every
    interleaving. Each step is one atomic action of the source: an action under
    the registry lock, a load or store of an atomic flag, or a compare-exchange.
    Time is an argument of the claim; a step that cannot be taken changes nothing. */
module MediaAuth {
  import opened Common
  import Hex

  const SESSION_ID_BYTES := 16
  const TOKEN_BYTES := 32

  type GrantId = nat
  type ThreadId = nat
  type LeaseId = nat

  datatype Grant = Grant(
    sessionId: Bytes, token: Bytes, expiresAt: int, revoked: bool, claimed: bool)

  /** Who holds the registry lock between two of its atomic actions. */
  datatype Lock = Free | Issuing(previous: Option<GrantId>) | Revoking(removed: GrantId)

  /** Progress of one `claim` call. */
  datatype Claim = Found(grant: GrantId, token: string, now: int) | Authorized(grant: GrantId)

  datatype Registry = Registry(
    grants: seq<Grant>,
    active: Option<GrantId>,
    lock: Lock,
    claims: map<ThreadId, Claim>,
    leases: map<LeaseId, GrantId>)

  const EMPTY := Registry([], None, Free, map[], map[])

  datatype Step =
    | IssueReplace(sessionId: Bytes, token: Bytes, expiresAt: int)
    | IssueRevokePrevious
    | RevokeTake(id: string)
    | RevokeStore
    | ClaimLookup(thread: ThreadId, id: string, presented: string, now: int)
    | ClaimAuthorize(thread: ThreadId)
    | ClaimExchange(thread: ThreadId, lease: LeaseId)
    | DropLease(lease: LeaseId)

  predicate IdMatches(g: Grant, id: string) {
    var (candidate, valid) := Hex.DecodeFixed(SESSION_ID_BYTES, id);
    valid && candidate == g.sessionId
  }

  predicate Authorizes(g: Grant, presented: string, now: int) {
    var (candidate, valid) := Hex.DecodeFixed(TOKEN_BYTES, presented);
    valid && candidate == g.token && now < g.expiresAt && !g.revoked
  }

  /** Every reference points at an existing grant. */
  ghost predicate WellFormed(r: Registry) {
    && (r.active.Some? ==> r.active.value < |r.grants|)
    && (r.lock.Issuing? && r.lock.previous.Some? ==> r.lock.previous.value < |r.grants|)
    && (r.lock.Revoking? ==> r.lock.removed < |r.grants|)
    && (forall t :: t in r.claims ==> r.claims[t].grant < |r.grants|)
    && (forall l :: l in r.leases ==> r.leases[l] < |r.grants|)
  }

  ghost function Revoke(r: Registry, g: GrantId): Registry
    requires g < |r.grants|
  {
    r.(grants := r.grants[g := r.grants[g].(revoked := true)])
  }

  ghost function Apply(r: Registry, step: Step): Registry
    requires WellFormed(r)
  {
    match step
    case IssueReplace(sessionId, token, expiresAt) =>
      if !r.lock.Free? then r
      else r.(grants := r.grants + [Grant(sessionId, token, expiresAt, false, false)],
              active := Some(|r.grants|), lock := Issuing(r.active))
    case IssueRevokePrevious =>
      if !r.lock.Issuing? then r
      else if r.lock.previous.None? then r.(lock := Free)
      else Revoke(r, r.lock.previous.value).(lock := Free)
    case RevokeTake(id) =>
      if r.lock.Free? && r.active.Some? && IdMatches(r.grants[r.active.value], id)
      then r.(active := None, lock := Revoking(r.active.value)) else r
    case RevokeStore =>
      if !r.lock.Revoking? then r else Revoke(r, r.lock.removed).(lock := Free)
    case ClaimLookup(thread, id, presented, now) =>
      if r.lock.Free? && thread !in r.claims && r.active.Some? && IdMatches(r.grants[r.active.value], id)
      then r.(claims := r.claims[thread := Found(r.active.value, presented, now)]) else r
    case ClaimAuthorize(thread) =>
      if thread !in r.claims || !r.claims[thread].Found? then r
      else
        var Found(g, presented, now) := r.claims[thread];
        if Authorizes(r.grants[g], presented, now)
        then r.(claims := r.claims[thread := Authorized(g)])
        else r.(claims := r.claims - {thread})
    case ClaimExchange(thread, lease) =>
      if thread !in r.claims || !r.claims[thread].Authorized? || lease in r.leases then r
      else
        var g := r.claims[thread].grant;
        if r.grants[g].claimed then r.(claims := r.claims - {thread})
        else r.(claims := r.claims - {thread}, leases := r.leases[lease := g],
                grants := r.grants[g := r.grants[g].(claimed := true)])
    case DropLease(lease) =>
      if lease !in r.leases then r
      else
        var g := r.leases[lease];
        r.(leases := r.leases - {lease}, grants := r.grants[g := r.grants[g].(claimed := false)])
  }

  // ---- the invariant ----

  ghost predicate LeasedGrant(r: Registry, g: GrantId) {
    exists l :: l in r.leases && r.leases[l] == g
  }

  /** A grant is claimed exactly when one lease on it is live. */
  ghost predicate ClaimedIffOneLease(r: Registry) {
    && (forall g :: 0 <= g < |r.grants| ==> (r.grants[g].claimed <==> LeasedGrant(r, g)))
    && (forall l, k :: l in r.leases && k in r.leases && r.leases[l] == r.leases[k] ==> l == k)
  }

  /** Only the current grant, or the one being replaced or removed under the lock,
      can still be unrevoked. */
  ghost predicate OnlyCurrentUnrevoked(r: Registry) {
    forall g :: 0 <= g < |r.grants| && !r.grants[g].revoked ==>
      r.active == Some(g) || r.lock == Issuing(Some(g)) || r.lock == Revoking(g)
  }

  /** While a replacement's predecessor is not yet revoked, nobody has seen the
      replacement; while a removed grant is not yet revoked, there is no current one. */
  ghost predicate LockedPhase(r: Registry) {
    && (r.lock.Issuing? ==>
          && r.active.Some? && r.lock.previous != r.active
          && (forall t :: t in r.claims ==> r.claims[t].grant != r.active.value)
          && (forall l :: l in r.leases ==> r.leases[l] != r.active.value))
    && (r.lock.Revoking? ==> r.active.None?)
  }

  ghost predicate Inv(r: Registry) {
    && WellFormed(r) && ClaimedIffOneLease(r) && OnlyCurrentUnrevoked(r) && LockedPhase(r)
  }

  lemma {:induction false} LeasesUntouched(r: Registry, r': Registry)
    requires ClaimedIffOneLease(r) && r'.leases == r.leases
    requires |r.grants| <= |r'.grants|
    requires forall g :: 0 <= g < |r.grants| ==> r'.grants[g].claimed == r.grants[g].claimed
    requires forall g :: |r.grants| <= g < |r'.grants| ==> !r'.grants[g].claimed
    requires WellFormed(r)
    ensures ClaimedIffOneLease(r')
  {
    forall g | 0 <= g < |r'.grants| ensures r'.grants[g].claimed <==> LeasedGrant(r', g) {
      assert LeasedGrant(r', g) <==> LeasedGrant(r, g);
    }
  }

  lemma {:induction false} LockStepKeepsInv(r: Registry, step: Step)
    requires Inv(r)
    requires step.IssueReplace? || step.IssueRevokePrevious? || step.RevokeTake? || step.RevokeStore?
    ensures Inv(Apply(r, step))
  {
    LeasesUntouched(r, Apply(r, step));
  }

  lemma {:induction false} LookupKeepsInv(r: Registry, step: Step)
    requires Inv(r)
    requires step.ClaimLookup? || step.ClaimAuthorize?
    ensures Inv(Apply(r, step))
  {
    LeasesUntouched(r, Apply(r, step));
  }

  lemma {:induction false} ExchangeKeepsInv(r: Registry, thread: ThreadId, lease: LeaseId)
    requires Inv(r)
    ensures Inv(Apply(r, ClaimExchange(thread, lease)))
  {
    var r' := Apply(r, ClaimExchange(thread, lease));
    if r'.leases == r.leases {
      LeasesUntouched(r, r');
    } else {
      var g := r.claims[thread].grant;
      assert !LeasedGrant(r, g);
      assert r'.leases[lease] == g;
      forall h | 0 <= h < |r'.grants| ensures r'.grants[h].claimed <==> LeasedGrant(r', h) {
        if h != g && LeasedGrant(r, h) {
          var l :| l in r.leases && r.leases[l] == h;
          assert l in r'.leases && r'.leases[l] == h;
        }
        assert h != g && LeasedGrant(r', h) ==> LeasedGrant(r, h);
      }
    }
  }

  lemma {:induction false} DropKeepsInv(r: Registry, lease: LeaseId)
    requires Inv(r)
    ensures Inv(Apply(r, DropLease(lease)))
  {
    if lease in r.leases {
      var r', g := Apply(r, DropLease(lease)), r.leases[lease];
      forall h | 0 <= h < |r'.grants| ensures r'.grants[h].claimed <==> LeasedGrant(r', h) {
        if h != g && LeasedGrant(r, h) {
          var l :| l in r.leases && r.leases[l] == h;
          assert l in r'.leases && r'.leases[l] == h;
        }
        assert LeasedGrant(r', h) ==> LeasedGrant(r, h) && h != g;
      }
    }
  }

  /** Every atomic step keeps the invariant. */
  lemma {:induction false} StepKeepsInv(r: Registry, step: Step)
    requires Inv(r)
    ensures Inv(Apply(r, step))
  {
    match step
    case ClaimExchange(thread, lease) => ExchangeKeepsInv(r, thread, lease);
    case DropLease(lease) => DropKeepsInv(r, lease);
    case ClaimLookup(_, _, _, _) => LookupKeepsInv(r, step);
    case ClaimAuthorize(_) => LookupKeepsInv(r, step);
    case _ => LockStepKeepsInv(r, step);
  }

  /** The registry after any interleaving of steps. */
  ghost function Run(steps: seq<Step>): (r: Registry)
    ensures WellFormed(r)
  {
    if steps == [] then EMPTY
    else
      var before, step := Run(steps[..|steps| - 1]), steps[|steps| - 1];
      StepWellFormed(before, step);
      Apply(before, step)
  }

  lemma {:induction false} StepWellFormed(r: Registry, step: Step)
    requires WellFormed(r)
    ensures WellFormed(Apply(r, step))
  {
  }

  /** Every reachable state satisfies the invariant. */
  lemma {:induction false} RunKeepsInv(steps: seq<Step>)
    ensures Inv(Run(steps))
  {
    if steps != [] {
      RunKeepsInv(steps[..|steps| - 1]);
      StepKeepsInv(Run(steps[..|steps| - 1]), steps[|steps| - 1]);
    }
  }

  // ---- mutual exclusion ----

  /** `MediaSessionLease::is_active`: only the revoked flag is consulted. */
  ghost predicate LeaseActive(r: Registry, l: LeaseId)
    requires WellFormed(r)
  {
    l in r.leases && !r.grants[r.leases[l]].revoked
  }

  /** Media mutual exclusion: in every interleaving at most one live lease is
      active, and a grant's claimed flag is set exactly when one lease on it is live. */
  lemma {:induction false} MutualExclusion(steps: seq<Step>)
    ensures var r := Run(steps);
            && ClaimedIffOneLease(r)
            && forall l, k :: LeaseActive(r, l) && LeaseActive(r, k) ==> l == k
  {
    RunKeepsInv(steps);
    var r := Run(steps);
    forall l, k | LeaseActive(r, l) && LeaseActive(r, k) ensures l == k {
      assert r.leases[l] == r.leases[k];
    }
  }

  /** Revocation is permanent, and an active lease stops being active only when a
      step under the registry lock revokes its grant or its owner drops it: no step
      consults the expiry of a lease. */
  lemma {:induction false} LeaseEndsOnlyByRevocation(r: Registry, step: Step, l: LeaseId)
    requires Inv(r) && LeaseActive(r, l)
    ensures WellFormed(Apply(r, step))
    ensures LeaseActive(Apply(r, step), l)
       <==> && step != DropLease(l)
            && !(step.IssueRevokePrevious? && r.lock == Issuing(Some(r.leases[l])))
            && !(step.RevokeStore? && r.lock == Revoking(r.leases[l]))
  {
    StepKeepsInv(r, step);
  }

  lemma {:induction false} RevokedStaysRevoked(r: Registry, step: Step, g: GrantId)
    requires Inv(r) && g < |r.grants| && r.grants[g].revoked
    ensures g < |Apply(r, step).grants| && Apply(r, step).grants[g].revoked
  {
  }

  // ---- what an enrolled client gets ----

  /** `issue`, both its steps. */
  ghost function Issue(r: Registry, sessionId: Bytes, token: Bytes, expiresAt: int): (s: Registry)
    requires Inv(r)
    ensures Inv(s)
  {
    var step := IssueReplace(sessionId, token, expiresAt);
    StepKeepsInv(r, step);
    StepKeepsInv(Apply(r, step), IssueRevokePrevious);
    Apply(Apply(r, step), IssueRevokePrevious)
  }

  /** `claim` with no other thread in between. */
  ghost function ClaimAlone(r: Registry, thread: ThreadId, id: string, presented: string, now: int, lease: LeaseId): (s: Registry)
    requires Inv(r)
    ensures Inv(s)
  {
    var step := ClaimLookup(thread, id, presented, now);
    StepKeepsInv(r, step);
    var r1 := Apply(r, step);
    StepKeepsInv(r1, ClaimAuthorize(thread));
    var r2 := Apply(r1, ClaimAuthorize(thread));
    StepKeepsInv(r2, ClaimExchange(thread, lease));
    Apply(r2, ClaimExchange(thread, lease))
  }

  /** Issuing makes the new grant the only one not revoked. */
  lemma {:induction false} IssueOutcome(r: Registry, sessionId: Bytes, token: Bytes, expiresAt: int)
    requires Inv(r) && r.lock.Free?
    ensures var s, k := Issue(r, sessionId, token, expiresAt), |r.grants|;
            && s.lock.Free? && s.active == Some(k) && s.claims == r.claims && s.leases == r.leases
            && |s.grants| == k + 1 && s.grants[k] == Grant(sessionId, token, expiresAt, false, false)
            && forall g :: 0 <= g < k ==> s.grants[g].revoked
  {
  }

  /** After the lookup the claim holds the current grant exactly when the text denotes its
      identifier. */
  lemma {:induction false} LookupOutcome(r: Registry, thread: ThreadId, id: string, presented: string, now: int)
    requires Inv(r) && r.lock.Free? && r.active.Some? && thread !in r.claims
    ensures var g, s := r.grants[r.active.value], Apply(r, ClaimLookup(thread, id, presented, now));
            && s.grants == r.grants && s.leases == r.leases
            && (IdMatches(g, id) ==> thread in s.claims && s.claims[thread] == Found(r.active.value, presented, now))
            && (!IdMatches(g, id) ==> thread !in s.claims)
  {
  }

  lemma {:induction false} AuthorizeOutcome(r: Registry, thread: ThreadId, g: GrantId, presented: string, now: int)
    requires Inv(r) && thread in r.claims && r.claims[thread] == Found(g, presented, now)
    ensures var s := Apply(r, ClaimAuthorize(thread));
            && s.grants == r.grants && s.leases == r.leases
            && (Authorizes(r.grants[g], presented, now) ==> thread in s.claims && s.claims[thread] == Authorized(g))
            && (!Authorizes(r.grants[g], presented, now) ==> thread !in s.claims)
  {
  }

  lemma {:induction false} ExchangeOutcome(r: Registry, thread: ThreadId, lease: LeaseId)
    requires Inv(r) && lease !in r.leases
    ensures var s := Apply(r, ClaimExchange(thread, lease));
            lease in s.leases
            <==> thread in r.claims && r.claims[thread].Authorized? && !r.grants[r.claims[thread].grant].claimed
    ensures var s := Apply(r, ClaimExchange(thread, lease));
            && WellFormed(s)
            && (lease in s.leases ==>
                  && s.leases[lease] == r.claims[thread].grant
                  && s.grants[s.leases[lease]].revoked == r.grants[s.leases[lease]].revoked)
  {
    StepKeepsInv(r, ClaimExchange(thread, lease));
  }

  lemma {:induction false} NoClaimNoStep(r: Registry, thread: ThreadId)
    requires Inv(r) && thread !in r.claims
    ensures Apply(r, ClaimAuthorize(thread)) == r
  {
  }

  /** Presented alone, a claim of the current grant gets a lease exactly when the
      texts denote its identifier and token, it has not expired, and nobody holds it. */
  lemma {:induction false} ClaimOutcome(
      r: Registry, thread: ThreadId, id: string, presented: string, now: int, lease: LeaseId)
    requires Inv(r) && r.lock.Free? && r.active.Some? && thread !in r.claims && lease !in r.leases
    ensures var g, s := r.grants[r.active.value], ClaimAlone(r, thread, id, presented, now, lease);
            LeaseActive(s, lease)
            <==> && Hex.DecodeFixed(SESSION_ID_BYTES, id) == (g.sessionId, true)
                 && Hex.DecodeFixed(TOKEN_BYTES, presented) == (g.token, true)
                 && now < g.expiresAt && !g.revoked && !g.claimed
  {
    LookupOutcome(r, thread, id, presented, now);
    StepKeepsInv(r, ClaimLookup(thread, id, presented, now));
    var r1 := Apply(r, ClaimLookup(thread, id, presented, now));
    if thread in r1.claims {
      AuthorizeOutcome(r1, thread, r.active.value, presented, now);
    } else {
      NoClaimNoStep(r1, thread);
    }
    StepKeepsInv(r1, ClaimAuthorize(thread));
    ExchangeOutcome(Apply(r1, ClaimAuthorize(thread)), thread, lease);
  }

  /** The hexadecimal enrollment handed to the client is accepted by the registry
      that issued it until it expires, and never after. */
  lemma {:induction false} EnrollmentIsAccepted(
      r: Registry, sessionId: Bytes, token: Bytes, expiresAt: int, thread: ThreadId, now: int, lease: LeaseId)
    requires Inv(r) && r.lock.Free? && thread !in r.claims && lease !in r.leases
    requires |sessionId| == SESSION_ID_BYTES && |token| == TOKEN_BYTES
    ensures var issued := Issue(r, sessionId, token, expiresAt);
            LeaseActive(ClaimAlone(issued, thread, Hex.Encode(sessionId), Hex.Encode(token), now, lease), lease)
            <==> now < expiresAt
  {
    Hex.DecodeEncode(sessionId);
    Hex.DecodeEncode(token);
    IssueOutcome(r, sessionId, token, expiresAt);
    ClaimOutcome(Issue(r, sessionId, token, expiresAt), thread, Hex.Encode(sessionId), Hex.Encode(token), now, lease);
  }

  /** The claim's check and its exchange are separate: a claim that passed the check
      can still take a lease on a grant revoked in between. The lease it gets is
      not active, and never will be. */
  lemma {:induction false} LateExchangeIsInactive(r: Registry, thread: ThreadId, lease: LeaseId)
    requires Inv(r) && thread in r.claims && r.claims[thread].Authorized? && lease !in r.leases
    requires r.grants[r.claims[thread].grant].revoked && !r.grants[r.claims[thread].grant].claimed
    ensures var s := Apply(r, ClaimExchange(thread, lease));
            WellFormed(s) && lease in s.leases && !LeaseActive(s, lease)
  {
    StepKeepsInv(r, ClaimExchange(thread, lease));
  }

  // ---- revocation ----

  /** `revoke`, both its steps. */
  ghost function RevokeSession(r: Registry, id: string): (s: Registry)
    requires Inv(r)
    ensures Inv(s)
  {
    StepKeepsInv(r, RevokeTake(id));
    StepKeepsInv(Apply(r, RevokeTake(id)), RevokeStore);
    Apply(Apply(r, RevokeTake(id)), RevokeStore)
  }

  /** The text denotes the identifier of the current grant. */
  ghost predicate NamesCurrent(r: Registry, id: string)
    requires Inv(r)
  {
    r.active.Some? && Hex.DecodeFixed(SESSION_ID_BYTES, id) == (r.grants[r.active.value].sessionId, true)
  }

  /** Revoking the current session leaves no session: its grant is revoked and no lease on
      any grant is active. Any other text changes nothing. */
  lemma {:induction false} RevokeOutcome(r: Registry, id: string)
    requires Inv(r) && r.lock.Free?
    ensures var s := RevokeSession(r, id);
            if NamesCurrent(r, id) then
              && s.active.None? && s.lock.Free? && s.leases == r.leases && s.claims == r.claims
              && s.grants[r.active.value].revoked && (forall l :: !LeaseActive(s, l))
            else s == r
  {
    assert NamesCurrent(r, id) <==> r.active.Some? && IdMatches(r.grants[r.active.value], id);
  }

  /** With no current session a claim of anything gets no active lease. */
  lemma {:induction false} NothingToClaim(
      r: Registry, thread: ThreadId, id: string, presented: string, now: int, lease: LeaseId)
    requires Inv(r) && r.lock.Free? && r.active.None? && thread !in r.claims && lease !in r.leases
    ensures ClaimAlone(r, thread, id, presented, now, lease) == r
  {
    assert Apply(r, ClaimLookup(thread, id, presented, now)) == r;
    NoClaimNoStep(r, thread);
  }

  /** So after a revocation, whatever texts are presented, no claim succeeds. */
  lemma {:induction false} RevokedIsUnclaimable(
      r: Registry, id: string, thread: ThreadId, text: string, presented: string, now: int, lease: LeaseId)
    requires Inv(r) && r.lock.Free? && NamesCurrent(r, id) && thread !in r.claims && lease !in r.leases
    ensures !LeaseActive(ClaimAlone(RevokeSession(r, id), thread, text, presented, now, lease), lease)
  {
    RevokeOutcome(r, id);
    NothingToClaim(RevokeSession(r, id), thread, text, presented, now, lease);
  }

  lemma {:induction false} RunSnoc(steps: seq<Step>, step: Step)
    ensures Run(steps + [step]) == Apply(Run(steps), step)
  {
    assert (steps + [step])[..|steps|] == steps;
  }

  ghost predicate GrantRevoked(r: Registry, g: GrantId) {
    g < |r.grants| && r.grants[g].revoked
  }

  /** Grant `g` is revoked, or is removed and about to be. */
  ghost predicate Going(r: Registry, g: GrantId) {
    g < |r.grants| && (r.grants[g].revoked || r.lock == Revoking(g))
  }

  lemma {:induction false} GoingNext(r: Registry, step: Step, g: GrantId)
    requires Inv(r) && Going(r, g)
    ensures Going(Apply(r, step), g)
    ensures step.RevokeStore? || GrantRevoked(r, g) ==> GrantRevoked(Apply(r, step), g)
  {
  }

  lemma {:induction false} StepGoes(steps: seq<Step>, step: Step, g: GrantId)
    requires Going(Run(steps), g)
    ensures Going(Run(steps + [step]), g)
    ensures step.RevokeStore? || GrantRevoked(Run(steps), g) ==> GrantRevoked(Run(steps + [step]), g)
  {
    RunSnoc(steps, step);
    RunKeepsInv(steps);
    GoingNext(Run(steps), step, g);
  }

  lemma {:induction false} GoesOn(steps: seq<Step>, more: seq<Step>, g: GrantId)
    requires Going(Run(steps), g)
    ensures Going(Run(steps + more), g)
    ensures GrantRevoked(Run(steps), g) ==> GrantRevoked(Run(steps + more), g)
  {
    if more == [] {
      assert steps + more == steps;
    } else {
      var init, last := more[..|more| - 1], more[|more| - 1];
      GoesOn(steps, init, g);
      StepGoes(steps + init, last, g);
      assert steps + more == steps + init + [last];
    }
  }

  /** The text names the current grant `g`, and nobody holds the lock. */
  ghost predicate CanTake(r: Registry, id: string, g: GrantId) {
    && WellFormed(r) && r.lock.Free? && r.active == Some(g)
    && Hex.DecodeFixed(SESSION_ID_BYTES, id) == (r.grants[g].sessionId, true)
  }

  lemma {:induction false} TakenIsGoing(steps: seq<Step>, id: string, g: GrantId)
    requires CanTake(Run(steps), id, g)
    ensures Going(Run(steps + [RevokeTake(id)]), g)
  {
    assert IdMatches(Run(steps).grants[g], id);
    RunSnoc(steps, RevokeTake(id));
  }

  /** Revocation over whole runs. Once a step has taken away the session a text names, and
      a later one has stored its revocation, no lease on that grant is active again, whatever
      any thread does in between or afterwards. */
  lemma {:induction false} RevokedForGood(
      before: seq<Step>, id: string, between: seq<Step>, after: seq<Step>, g: GrantId)
    requires CanTake(Run(before), id, g)
    ensures var r := Run(before + [RevokeTake(id)] + between + [RevokeStore] + after);
            GrantRevoked(r, g) && forall l :: l in r.leases && r.leases[l] == g ==> !LeaseActive(r, l)
  {
    var taken := before + [RevokeTake(id)];
    TakenIsGoing(before, id, g);
    GoesOn(taken, between, g);
    StepGoes(taken + between, RevokeStore, g);
    GoesOn(taken + between + [RevokeStore], after, g);
  }

  /** A dropped lease is gone, and the same texts claim the session again while it lasts. */
  lemma {:induction false} ReconnectAfterDrop(
      r: Registry, held: LeaseId, thread: ThreadId, id: string, presented: string, now: int, lease: LeaseId)
    requires Inv(r) && r.lock.Free? && r.active.Some? && held in r.leases && r.leases[held] == r.active.value
    requires thread !in r.claims && lease !in r.leases
    ensures var g, dropped := r.grants[r.active.value], Apply(r, DropLease(held));
            && Inv(dropped) && held !in dropped.leases
            && (LeaseActive(ClaimAlone(dropped, thread, id, presented, now, lease), lease)
                <==> && Hex.DecodeFixed(SESSION_ID_BYTES, id) == (g.sessionId, true)
                     && Hex.DecodeFixed(TOKEN_BYTES, presented) == (g.token, true)
                     && now < g.expiresAt && !g.revoked)
  {
    DropKeepsInv(r, held);
    ClaimOutcome(Apply(r, DropLease(held)), thread, id, presented, now, lease);
  }
}

/** What becomes of a notification: one step at a time, said of the bytes that arrive, and
    over whole runs, where every announced UID meets one of a few fates. */
module AncsFates {
  import opened Common
  import opened AncsTransport

  /** The bytes of a request, one by one. */
  lemma {:induction false} RequestBytes(u: Uid)
    ensures AttributeRequest(u) == [0, u.a, u.b, u.c, u.d, 0, 1, 0, 1, 2, 0, 1, 4, 5, 6, 7]
  {
    assert LittleEndian16(256) == [0, 1];
    assert Limited(1) == [1, 0, 1] && Limited(2) == [2, 0, 1];
    assert AttributeList() == [0, 1, 0, 1, 2, 0, 1, 4, 5, 6, 7];
  }

  lemma {:induction false} MessagesAppText()
    ensures |MESSAGES_APP| == |"com.apple.MobileSMS"|
    ensures forall i :: 0 <= i < |MESSAGES_APP| ==> MESSAGES_APP[i] == "com.apple.MobileSMS"[i] as int
  {
    var text := "com.apple.MobileSMS";
    assert |text| == 19 && |MESSAGES_APP| == 19;
    forall i | 0 <= i < 19 ensures MESSAGES_APP[i] == text[i] as int {
    }
  }

  /** The length of a field is its bytes 1 and 2, the low one first. */
  lemma {:induction false} FieldLayout(id: Byte, value: Bytes)
    requires |value| < 0x1_0000
    ensures var f := Field(id, value);
            var low: int, high: int := f[1], f[2];
            f[0] == id && low + 256 * high == |value| && f[3..] == value
  {
  }

  // ---- the notification source ----

  /** Eight bytes that announce `u`: added or modified. */
  ghost predicate Announces(value: Bytes, u: Uid) {
    |value| == 8 && (value[0] == 0 || value[0] == 1) && value[4..] == [u.a, u.b, u.c, u.d]
  }

  /** Eight bytes that withdraw `u`. */
  ghost predicate Withdraws(value: Bytes, u: Uid) {
    |value| == 8 && value[0] == 2 && value[4..] == [u.a, u.b, u.c, u.d]
  }

  lemma {:induction false} ParsedBytes(value: Bytes, u: Uid)
    ensures Announces(value, u) <==>
            ParseSourceEvent(value).Some? && !ParseSourceEvent(value).value.kind.Removed? && ParseSourceEvent(value).value.uid == u
    ensures Withdraws(value, u) <==> ParseSourceEvent(value) == Some(SourceEvent(EventKind.Removed, u))
  {
    if |value| == 8 {
      assert value[4..] == [value[4], value[5], value[6], value[7]];
      assert value[4..] == [u.a, u.b, u.c, u.d] <==> UidAt(value, 4) == u;
    }
  }

  /** An idle consumer asks for an announced notification at once. */
  lemma {:induction false} AnnouncedWhenIdle(c: Consumer, value: Bytes, u: Uid, lossy: Lossy)
    requires Announces(value, u) && c.pending.None? && u !in Remembered(c)
    ensures Step(c, Source(value), lossy)
         == Outcome(c.(pending := Some(u), response := []), None, Some(AttributeRequest(u)))
  {
    ParsedBytes(value, u);
    assert u !in c.completed && u !in c.queued by { NotRemembered(c, u); }
  }

  lemma {:induction false} NotRemembered(c: Consumer, u: Uid)
    ensures u in Remembered(c) <==> u in c.completed || c.pending == Some(u) || u in c.queued
  {
    var r := Remembered(c);
    if c.pending.Some? {
      assert r[|c.completed|] == c.pending.value;
    }
  }

  /** A busy one queues it behind the others, unless 32 are queued already. */
  lemma {:induction false} AnnouncedWhenBusy(c: Consumer, value: Bytes, u: Uid, lossy: Lossy)
    requires Announces(value, u) && c.pending.Some? && u !in Remembered(c)
    ensures Step(c, Source(value), lossy)
         == Outcome(if |c.queued| < 32 then c.(queued := c.queued + [u]) else c, None, None)
  {
    ParsedBytes(value, u);
    NotRemembered(c, u);
  }

  /** What is completed, pending or queued is not announced twice. */
  lemma {:induction false} AnnouncedAgain(c: Consumer, value: Bytes, u: Uid, lossy: Lossy)
    requires Announces(value, u) && u in Remembered(c)
    ensures Step(c, Source(value), lossy) == Outcome(c, None, None)
  {
    ParsedBytes(value, u);
    NotRemembered(c, u);
  }

  /** A withdrawn notification leaves the queue; every other keeps its place, and nothing
      else changes. */
  lemma {:induction false} WithdrawnLeavesQueue(c: Consumer, value: Bytes, u: Uid, lossy: Lossy)
    requires Withdraws(value, u) && Distinct(c.queued)
    ensures u !in c.queued ==> Step(c, Source(value), lossy) == Outcome(c, None, None)
    ensures forall k :: 0 <= k < |c.queued| && c.queued[k] == u ==>
              Step(c, Source(value), lossy)
              == Outcome(c.(queued := c.queued[..k] + c.queued[k + 1..]), None, None)
  {
    ParsedBytes(value, u);
    if u !in c.queued {
      WithoutAbsent(c.queued, u);
    }
    forall k | 0 <= k < |c.queued| && c.queued[k] == u
      ensures Without(c.queued, u) == c.queued[..k] + c.queued[k + 1..]
    {
      WithoutAt(c.queued, u, k);
    }
  }

  lemma {:induction false} WithoutAbsent(s: seq<Uid>, u: Uid)
    requires u !in s
    ensures Without(s, u) == s
  {
    if s != [] {
      WithoutAbsent(s[..|s| - 1], u);
    }
  }

  lemma {:induction false} WithoutAt(s: seq<Uid>, u: Uid, k: nat)
    requires k < |s| && s[k] == u && Distinct(s)
    ensures Without(s, u) == s[..k] + s[k + 1..]
  {
    var n := |s| - 1;
    if k == n {
      WithoutAbsent(s[..n], u);
      assert s[k + 1..] == [];
    } else {
      WithoutAt(s[..n], u, k);
      assert s[k + 1..] == s[..n][k + 1..] + [s[n]];
      assert s[..n][..k] == s[..k];
    }
  }

  /** Any other bytes are ignored. */
  lemma {:induction false} OtherBytes(c: Consumer, value: Bytes, lossy: Lossy)
    requires |value| != 8 || value[0] > 2
    ensures Step(c, Source(value), lossy) == Outcome(c, None, None)
  {
  }

  // ---- the data source ----

  /** What follows a request that is over: the oldest queued notification is asked for. */
  ghost function Onward(c: Consumer, completed: seq<Uid>): Consumer {
    if c.queued == [] then Consumer([], completed, None, [])
    else Consumer(c.queued[1..], completed, Some(c.queued[0]), [])
  }

  ghost function OnwardRequest(c: Consumer): Option<Bytes> {
    if c.queued == [] then None else Some(AttributeRequest(c.queued[0]))
  }

  /** Bytes nobody asked for are ignored. */
  lemma {:induction false} UnaskedData(c: Consumer, fragment: Bytes, lossy: Lossy)
    requires Consistent(c) && c.pending.None?
    ensures Step(c, Data(fragment), lossy) == Outcome(c, None, None)
  {
  }

  /** More than 4096 bytes of response abandon the pending notification: it is neither
      reported nor remembered, and the next one is asked for. */
  lemma {:induction false} OverflowAbandons(c: Consumer, fragment: Bytes, lossy: Lossy)
    requires c.pending.Some? && |c.response| + |fragment| > 4096
    ensures Step(c, Data(fragment), lossy) == Outcome(Onward(c, c.completed), None, OnwardRequest(c))
  {
  }

  /** Up to 4096 bytes that are not yet a response are kept, and nothing is said. */
  lemma {:induction false} IncompleteIsKept(c: Consumer, fragment: Bytes, lossy: Lossy)
    requires c.pending.Some? && |c.response| + |fragment| <= 4096
    requires ParseAttributes(c.response + fragment).Unparsed?
    ensures Step(c, Data(fragment), lossy) == Outcome(c.(response := c.response + fragment), None, None)
  {
  }

  /** A response completes the pending notification: it is remembered among the last 64,
      reported if it is from Messages, and the next one is asked for. */
  lemma {:induction false} ResponseCompletes(c: Consumer, fragment: Bytes, lossy: Lossy)
    requires c.pending.Some? && |c.response| + |fragment| <= 4096
    requires ParseAttributes(c.response + fragment).Fields?
    ensures var values, out := ParseAttributes(c.response + fragment).values, Step(c, Data(fragment), lossy);
            && |values| == 7
            && out.state == Onward(c, Last(c.completed + [c.pending.value], 64)) && out.request == OnwardRequest(c)
            && out.metadata == if values[0] == MESSAGES_APP
                 then Some(Metadata(c.pending.value, lossy(values[1]), lossy(values[2]), lossy(values[5]), lossy(values[6])))
                 else None
  {
    ParsedHasSevenValues(c.response + fragment);
  }

  // ---- fates over whole runs ----

  datatype Fate = Pending | Queued | Known | Full | Completed(at: nat) | Withdrawn(at: nat) | Abandoned(at: nat)

  /** Event `j` finds `u` pending and completes it. */
  ghost predicate CompletesAt(events: seq<Event>, lossy: Lossy, j: nat, u: Uid) {
    && j < |events| && events[j].Data?
    && var c := Run(events[..j], lossy);
       && c.pending == Some(u) && |c.response| + |events[j].fragment| <= 4096
       && ParseAttributes(c.response + events[j].fragment).Fields?
  }

  /** Event `j` finds `u` pending and overflows its response. */
  ghost predicate AbandonsAt(events: seq<Event>, lossy: Lossy, j: nat, u: Uid) {
    && j < |events| && events[j].Data?
    && var c := Run(events[..j], lossy);
       c.pending == Some(u) && |c.response| + |events[j].fragment| > 4096
  }

  /** What has become, after `m` events, of the UID that event `i` announced: it is being
      asked for, waits to be, was known among the last 64 completed, met a full queue, or a
      later event completed, withdrew or abandoned it. */
  ghost predicate Meets(events: seq<Event>, lossy: Lossy, i: nat, m: nat, u: Uid, f: Fate)
    requires i < m <= |events|
  {
    match f
    case Pending => Run(events[..m], lossy).pending == Some(u)
    case Queued => u in Run(events[..m], lossy).queued
    case Known => u in Run(events[..i], lossy).completed
    case Full => Run(events[..i], lossy).pending.Some? && |Run(events[..i], lossy).queued| == 32
    case Completed(j) => i < j < m && CompletesAt(events, lossy, j, u)
    case Withdrawn(j) => i < j < m && events[j].Source? && Withdraws(events[j].value, u)
    case Abandoned(j) => i < j < m && AbandonsAt(events, lossy, j, u)
  }

  lemma {:induction false} RunNext(events: seq<Event>, lossy: Lossy, m: nat)
    requires m < |events|
    ensures Run(events[..m + 1], lossy) == Step(Run(events[..m], lossy), events[m], lossy).state
  {
    assert events[..m + 1][..m] == events[..m];
  }

  lemma {:induction false} AnnouncedFate(c: Consumer, value: Bytes, u: Uid, lossy: Lossy) returns (f: Fate)
    requires Consistent(c) && Announces(value, u)
    ensures var after := Step(c, Source(value), lossy).state;
            || (f == Pending && after.pending == Some(u))
            || (f == Queued && u in after.queued)
            || (f == Known && u in c.completed)
            || (f == Full && c.pending.Some? && |c.queued| == 32)
  {
    NotRemembered(c, u);
    if u in Remembered(c) {
      AnnouncedAgain(c, value, u, lossy);
      f := if u in c.completed then Known else if c.pending == Some(u) then Pending else Queued;
    } else if c.pending.None? {
      AnnouncedWhenIdle(c, value, u, lossy);
      f := Pending;
    } else {
      AnnouncedWhenBusy(c, value, u, lossy);
      f := if |c.queued| < 32 then Queued else Full;
    }
  }

  /** A source event leaves the pending UID alone, and a queued one unless it withdraws it. */
  lemma {:induction false} SourceKeeps(c: Consumer, value: Bytes, u: Uid, lossy: Lossy)
    requires Consistent(c)
    ensures c.pending == Some(u) ==> Step(c, Source(value), lossy).state.pending == Some(u)
    ensures u in c.queued && !Withdraws(value, u) ==> u in Step(c, Source(value), lossy).state.queued
  {
    ParsedBytes(value, u);
    var p := ParseSourceEvent(value);
    if u in c.queued && p.Some? && p.value.kind.Removed? && p.value.uid != u {
      WithoutKeeps(c.queued, p.value.uid, u);
    }
  }

  lemma {:induction false} WithoutKeeps(s: seq<Uid>, gone: Uid, u: Uid)
    requires u in s && u != gone
    ensures u in Without(s, gone)
  {
    if u in s[..|s| - 1] {
      WithoutKeeps(s[..|s| - 1], gone, u);
    }
  }

  /** A fragment ends the pending request only by completing or abandoning it, and a queued
      UID stays queued or becomes pending. */
  lemma {:induction false} DataKeeps(c: Consumer, fragment: Bytes, u: Uid, lossy: Lossy)
    requires Consistent(c)
    ensures var after := Step(c, Data(fragment), lossy).state;
            && (c.pending == Some(u) ==>
                  || after.pending == Some(u) || |c.response| + |fragment| > 4096
                  || ParseAttributes(c.response + fragment).Fields?)
            && (u in c.queued ==> u in after.queued || after.pending == Some(u))
  {
    var after := Step(c, Data(fragment), lossy).state;
    if c.pending.Some? {
      if |c.response| + |fragment| > 4096 {
        OverflowAbandons(c, fragment, lossy);
      } else if ParseAttributes(c.response + fragment).Fields? {
        ResponseCompletes(c, fragment, lossy);
      }
    }
    if u in c.queued && u !in after.queued {
      assert u == c.queued[0];
    }
  }

  lemma {:induction false} NextFate(events: seq<Event>, lossy: Lossy, i: nat, m: nat, u: Uid, f: Fate) returns (g: Fate)
    requires i < m < |events| && Meets(events, lossy, i, m, u, f)
    ensures Meets(events, lossy, i, m + 1, u, g)
  {
    g := f;
    if f.Pending? || f.Queued? {
      var c, e := Run(events[..m], lossy), events[m];
      RunConsistent(events[..m], lossy);
      RunNext(events, lossy, m);
      if e.Source? {
        SourceKeeps(c, e.value, u, lossy);
        g := if f.Queued? && Withdraws(e.value, u) then Withdrawn(m) else f;
      } else {
        DataKeeps(c, e.fragment, u, lossy);
        g := if Step(c, e, lossy).state.pending == Some(u) then Pending
             else if f.Queued? then Queued
             else if |c.response| + |e.fragment| > 4096 then Abandoned(m)
             else Completed(m);
      }
    }
  }

  lemma {:induction false} FirstFate(events: seq<Event>, lossy: Lossy, i: nat, u: Uid) returns (f: Fate)
    requires i < |events| && events[i].Source? && Announces(events[i].value, u)
    ensures Meets(events, lossy, i, i + 1, u, f)
  {
    RunConsistent(events[..i], lossy);
    f := AnnouncedFate(Run(events[..i], lossy), events[i].value, u, lossy);
    RunNext(events, lossy, i);
  }

  /** No notification is lost. In every run each UID announced by an event has, by the end,
      met one of the fates. */
  lemma {:induction false} EveryAnnouncementMeetsItsFate(events: seq<Event>, lossy: Lossy, i: nat, m: nat, u: Uid)
      returns (f: Fate)
    requires i < m <= |events| && events[i].Source? && Announces(events[i].value, u)
    ensures Meets(events, lossy, i, m, u, f)
  {
    if m == i + 1 {
      f := FirstFate(events, lossy, i, u);
    } else {
      f := EveryAnnouncementMeetsItsFate(events, lossy, i, m - 1, u);
      f := NextFate(events, lossy, i, m - 1, u, f);
    }
  }
}

/** Conversation and message pages over the in-memory repository, and what a client gets
    by following their cursors. */
module Paging {
  import opened Common
  import opened RowOrder
  import Aliasing
  import Cursor = PageCursor
  import Hex

  const DEFAULT_PAGE_SIZE: nat := 50

  const MAX_PAGE_SIZE: nat := 100

  const U16_MAX: nat := 0xFFFF

  datatype Status = UnprocessableEntity | Gone | ServiceUnavailable

  datatype Result<+T> = Ok(value: T) | Err(status: Status)

  datatype Page<+T> = Page(items: seq<T>, next: Option<string>)

  /** A page before its cursor is put into text. */
  datatype Cut<+T> = Cut(items: seq<T>, next: Option<nat>)

  datatype StoredConversation = StoredConversation(
    key: Aliasing.Name, latestUnixMillis: I64, isAncsGroup: bool, latestPreview: string)

  datatype StoredMessage = StoredMessage(
    localId: U64, key: Aliasing.Name, timestampUnixMillis: I64, body: string)

  datatype ConversationItem = ConversationItem(id: Aliasing.Name, row: StoredConversation)

  // ---- the listing orders ----

  /** Latest first, then by key. */
  predicate ConversationLe(l: StoredConversation, r: StoredConversation) {
    l.latestUnixMillis > r.latestUnixMillis
    || (l.latestUnixMillis == r.latestUnixMillis && TextLe(l.key.text, r.key.text))
  }

  /** Latest first, then by descending local id. */
  predicate MessageLe(l: StoredMessage, r: StoredMessage) {
    l.timestampUnixMillis > r.timestampUnixMillis
    || (l.timestampUnixMillis == r.timestampUnixMillis && l.localId >= r.localId)
  }

  lemma {:induction false} ConversationOrder()
    ensures Total(ConversationLe) && Transitive(ConversationLe)
  {
    forall a, b ensures ConversationLe(a, b) || ConversationLe(b, a) {
      TextLeTotal(a.key.text, b.key.text);
    }
    forall a, b, c | ConversationLe(a, b) && ConversationLe(b, c) ensures ConversationLe(a, c) {
      if a.latestUnixMillis == b.latestUnixMillis == c.latestUnixMillis {
        TextLeTransitive(a.key.text, b.key.text, c.key.text);
      }
    }
  }

  lemma {:induction false} MessageOrder()
    ensures Total(MessageLe) && Transitive(MessageLe)
  {
  }

  function ConversationRows(stored: seq<StoredConversation>): seq<StoredConversation> {
    SortBy(stored, ConversationLe)
  }

  function InConversation(stored: seq<StoredMessage>, key: Aliasing.Name): seq<StoredMessage> {
    if stored == [] then []
    else
      var last := stored[|stored| - 1];
      InConversation(stored[..|stored| - 1], key) + (if last.key == key then [last] else [])
  }

  function MessageRows(stored: seq<StoredMessage>, key: Aliasing.Name): seq<StoredMessage> {
    SortBy(InConversation(stored, key), MessageLe)
  }

  lemma {:induction false} CountSnoc<T>(s: seq<T>, x: T, m: T)
    ensures multiset(s + [x])[m] == multiset(s)[m] + (if x == m then 1 else 0)
  {
  }

  lemma {:induction false} InConversationCount(stored: seq<StoredMessage>, key: Aliasing.Name, m: StoredMessage)
    ensures multiset(InConversation(stored, key))[m] == if m.key == key then multiset(stored)[m] else 0
  {
    if stored != [] {
      var init, last := stored[..|stored| - 1], stored[|stored| - 1];
      InConversationCount(init, key, m);
      CountSnoc(init, last, m);
      assert stored == init + [last];
      if last.key == key {
        CountSnoc(InConversation(init, key), last, m);
      } else {
        assert InConversation(init, key) + [] == InConversation(init, key);
      }
    }
  }

  /** Most recent first; conversations of the same time by key. */
  ghost predicate LatestFirst(rows: seq<StoredConversation>) {
    forall i, j :: 0 <= i < j < |rows| ==>
      || rows[i].latestUnixMillis > rows[j].latestUnixMillis
      || (rows[i].latestUnixMillis == rows[j].latestUnixMillis && Precedes(rows[i].key.text, rows[j].key.text))
  }

  /** Most recent first; messages of the same time by descending identifier. */
  ghost predicate NewestFirst(rows: seq<StoredMessage>) {
    forall i, j :: 0 <= i < j < |rows| ==>
      || rows[i].timestampUnixMillis > rows[j].timestampUnixMillis
      || (rows[i].timestampUnixMillis == rows[j].timestampUnixMillis && rows[i].localId >= rows[j].localId)
  }

  lemma {:induction false} SortedIsLatestFirst(rows: seq<StoredConversation>)
    requires Sorted(rows, ConversationLe)
    ensures LatestFirst(rows)
  {
    forall i, j | 0 <= i < j < |rows|
      ensures || rows[i].latestUnixMillis > rows[j].latestUnixMillis
              || (rows[i].latestUnixMillis == rows[j].latestUnixMillis && Precedes(rows[i].key.text, rows[j].key.text))
    {
      assert ConversationLe(rows[i], rows[j]);
      TextLeMeaning(rows[i].key.text, rows[j].key.text);
    }
  }

  lemma {:induction false} SortedIsNewestFirst(rows: seq<StoredMessage>)
    requires Sorted(rows, MessageLe)
    ensures NewestFirst(rows)
  {
    forall i, j | 0 <= i < j < |rows|
      ensures || rows[i].timestampUnixMillis > rows[j].timestampUnixMillis
              || (rows[i].timestampUnixMillis == rows[j].timestampUnixMillis && rows[i].localId >= rows[j].localId)
    {
      assert MessageLe(rows[i], rows[j]);
    }
  }

  /** The list behind the conversation pages holds every stored conversation exactly as
      often as it is stored, most recent first, equal times by key. */
  lemma {:induction false} ConversationRowsMeaning(stored: seq<StoredConversation>)
    ensures var rows := ConversationRows(stored);
            multiset(rows) == multiset(stored) && LatestFirst(rows) && |rows| == |stored|
  {
    ConversationOrder();
    SortByMeaning(stored, ConversationLe);
    SortedIsLatestFirst(ConversationRows(stored));
  }

  /** The list behind the message pages holds every stored message of that conversation,
      exactly as often as it is stored, and no other; most recent first, equal times by
      descending identifier. */
  lemma {:induction false} MessageRowsMeaning(stored: seq<StoredMessage>, key: Aliasing.Name, m: StoredMessage)
    ensures var rows := MessageRows(stored, key);
            && multiset(rows)[m] == (if m.key == key then multiset(stored)[m] else 0)
            && NewestFirst(rows)
  {
    MessageOrder();
    SortByMeaning(InConversation(stored, key), MessageLe);
    SortedIsNewestFirst(MessageRows(stored, key));
    InConversationCount(stored, key, m);
  }

  // ---- one page ----

  function PageLimit(requested: Option<nat>): Result<nat> {
    var limit := if requested.Some? then requested.value else DEFAULT_PAGE_SIZE;
    if 1 <= limit <= MAX_PAGE_SIZE then Ok(limit) else Err(UnprocessableEntity)
  }

  /** A page has as many rows as asked for, from 1 to 100, and 50 if nothing is asked. */
  lemma {:induction false} PageLimitExactly(requested: Option<nat>, limit: nat)
    ensures PageLimit(requested) == Ok(limit)
       <==> (requested == Some(limit) && 1 <= limit <= 100) || (requested.None? && limit == 50)
    ensures PageLimit(requested).Err? ==> PageLimit(requested).status == UnprocessableEntity
  {
  }

  /** Rows [offset, offset + count), cut to those that exist. */
  function Window<T>(rows: seq<T>, offset: nat, count: nat): seq<T> {
    var start := Min(offset, |rows|);
    rows[start..Min(start + count, |rows|)]
  }

  /** A conversation page: cut from the whole list, which tells whether more follows. */
  function ConversationCut<T>(rows: seq<T>, offset: nat, limit: nat): Cut<T> {
    var items := Window(rows, offset, limit);
    Cut(items, if Min(offset, |rows|) + |items| < |rows| then Some(Cursor.Advance(offset, |items|)) else None)
  }

  /** A message page: one row more than asked for is fetched, and only its presence used. */
  function MessageCut<T>(rows: seq<T>, offset: nat, limit: nat): Cut<T> {
    var fetched := Window(rows, offset, limit + 1);
    var items := fetched[..Min(limit, |fetched|)];
    Cut(items, if |fetched| > limit then Some(Cursor.Advance(offset, |items|)) else None)
  }

  /** Looking one row ahead tells as much as knowing the whole list. */
  lemma {:induction false} LookaheadIsSlicing<T>(rows: seq<T>, offset: nat, limit: nat)
    ensures MessageCut(rows, offset, limit) == ConversationCut(rows, offset, limit)
  {
    var fetched := Window(rows, offset, limit + 1);
    assert fetched[..Min(limit, |fetched|)] == Window(rows, offset, limit);
  }

  datatype Listing = Conversations | Messages

  function CutOf<T>(listing: Listing, rows: seq<T>, offset: nat, limit: nat): Result<Cut<T>> {
    match listing
    case Conversations => Ok(ConversationCut(rows, offset, limit))
    case Messages =>
      if offset > U16_MAX || limit + 1 > U16_MAX then Err(UnprocessableEntity)
      else Ok(MessageCut(rows, offset, limit))
  }

  function CursorText(next: Option<nat>): Option<string> {
    if next.None? then None else Some(Cursor.Encode(next.value))
  }

  /** The answer to one request for a page of `rows`. */
  function Serve<T>(listing: Listing, rows: seq<T>, cursor: Option<string>, requested: Option<nat>): Result<Page<T>> {
    match Cursor.Parse(cursor)
    case None => Err(UnprocessableEntity)
    case Some(offset) =>
      match PageLimit(requested)
      case Err(status) => Err(status)
      case Ok(limit) =>
        match CutOf(listing, rows, offset, limit)
        case Err(status) => Err(status)
        case Ok(cut) => Ok(Page(cut.items, CursorText(cut.next)))
  }

  /** When a request for a page is refused, and how: a cursor that is not one, a limit out of
      range, or a message offset beyond 65,535. */
  lemma {:induction false} RefusedExactly<T>(
      listing: Listing, rows: seq<T>, cursor: Option<string>, requested: Option<nat>)
    ensures Serve(listing, rows, cursor, requested).Err?
       <==> || Cursor.Parse(cursor).None? || PageLimit(requested).Err?
            || (listing.Messages? && Cursor.Parse(cursor).value > 65_535)
    ensures Serve(listing, rows, cursor, requested).Err? ==>
              Serve(listing, rows, cursor, requested).status == UnprocessableEntity
  {
  }

  // ---- the repository and its endpoints ----

  class InMemoryConversationRepository {
    const conversations: seq<StoredConversation>
    const messages: seq<StoredMessage>

    constructor (conversations: seq<StoredConversation>, messages: seq<StoredMessage>)
      ensures this.conversations == conversations && this.messages == messages
    {
      this.conversations := conversations;
      this.messages := messages;
    }

    method MessagesFor(key: Aliasing.Name, limit: nat, offset: nat) returns (rows: seq<StoredMessage>)
      ensures rows == Window(MessageRows(messages, key), offset, limit)
    {
      var found := [];
      for i := 0 to |messages|
        invariant found == InConversation(messages[..i], key)
      {
        assert messages[..i + 1][..i] == messages[..i];
        if messages[i].key == key {
          found := found + [messages[i]];
        }
      }
      assert messages[..|messages|] == messages;
      var sorted := SortBy(found, MessageLe);
      var start := Min(offset, |sorted|);
      var end := Min(start + limit, |sorted|);
      return sorted[start..end];
    }
  }

  function RowsOf(items: seq<ConversationItem>): seq<StoredConversation> {
    seq(|items|, i requires 0 <= i < |items| => items[i].row)
  }

  /** Each item's identifier leads back to that item's conversation. */
  ghost predicate Resolvable(items: seq<ConversationItem>, a: Aliasing.Aliases) {
    forall i :: 0 <= i < |items| ==> Aliasing.Lookup(a.idToKey, items[i].id) == Some(items[i].row.key)
  }

  function RowRequest(row: StoredConversation, draws: Aliasing.Draws): Aliasing.Request {
    if row.isAncsGroup then Aliasing.ExposeStable(row.key) else Aliasing.Opaque(row.key, draws)
  }

  /** The rows of a page given their identifiers in turn; the first that gets none ends it. */
  datatype Shown = Shown(aliases: Aliasing.Aliases, items: seq<ConversationItem>, complete: bool)

  function ShowNext(s: Shown, row: StoredConversation, draws: Aliasing.Draws): Shown {
    if !s.complete then s
    else
      match Aliasing.Answer(s.aliases, RowRequest(row, draws))
      case None => s.(complete := false)
      case Some(id) =>
        Shown(Aliasing.Step(s.aliases, RowRequest(row, draws)), s.items + [ConversationItem(id, row)], true)
  }

  function Show(a: Aliasing.Aliases, rows: seq<StoredConversation>, random: nat -> Aliasing.Draws): Shown {
    if rows == [] then Shown(a, [], true)
    else
      var at := |rows| - 1;
      ShowNext(Show(a, rows[..at], random), rows[at], random(at))
  }

  lemma {:induction false} ShowNextMeaning(s: Shown, row: StoredConversation, draws: Aliasing.Draws)
    requires Aliasing.Inverse(s.aliases) && Resolvable(s.items, s.aliases)
    ensures var r := ShowNext(s, row, draws);
            && Aliasing.Inverse(r.aliases) && Aliasing.Extends(r.aliases, s.aliases) && Resolvable(r.items, r.aliases)
            && (r.complete ==> RowsOf(r.items) == RowsOf(s.items) + [row])
  {
    Aliasing.StepKeeps(s.aliases, RowRequest(row, draws));
  }

  /** Every identifier on a page leads back to its row's conversation, and identifiers
      issued before stay; a complete page shows all its rows in order. */
  lemma {:induction false} ShowMeaning(a: Aliasing.Aliases, rows: seq<StoredConversation>, random: nat -> Aliasing.Draws)
    requires Aliasing.Inverse(a)
    ensures var r := Show(a, rows, random);
            && Aliasing.Inverse(r.aliases) && Aliasing.Extends(r.aliases, a) && Resolvable(r.items, r.aliases)
            && (r.complete ==> RowsOf(r.items) == rows)
  {
    if rows != [] {
      var at := |rows| - 1;
      ShowMeaning(a, rows[..at], random);
      ShowNextMeaning(Show(a, rows[..at], random), rows[at], random(at));
      assert rows == rows[..at] + [rows[at]];
    }
  }

  /** The identifier a row is shown under, given what was known when its turn came: the one
      its conversation has; else, for an ANCS group, its key, and for any other row a draw
      that names nothing yet. */
  ghost predicate IdentifiesRow(
      known: Aliasing.Aliases, row: StoredConversation, draws: Aliasing.Draws, id: Aliasing.Name)
  {
    if row.key in known.keyToId then id == known.keyToId[row.key]
    else if row.isAncsGroup then id == row.key
    else exists n :: 0 <= n < 4 && draws[n].Some? && id == Aliasing.Name(Hex.Encode(draws[n].value)) && id !in known.idToKey
  }

  lemma {:induction false} RowIdentifier(a: Aliasing.Aliases, row: StoredConversation, draws: Aliasing.Draws)
    requires Aliasing.Inverse(a) && Aliasing.Answer(a, RowRequest(row, draws)).Some?
    ensures IdentifiesRow(a, row, draws, Aliasing.Answer(a, RowRequest(row, draws)).value)
  {
    if row.key in a.keyToId {
      Aliasing.KnownKeepsIdentifier(a, RowRequest(row, draws));
    } else if row.isAncsGroup {
      Aliasing.StableIsTheKey(a, row.key);
    } else {
      Aliasing.OpaqueIsDrawn(a, row.key, draws, Aliasing.Answer(a, RowRequest(row, draws)).value);
    }
  }

  lemma {:induction false} ShownCount(a: Aliasing.Aliases, rows: seq<StoredConversation>, random: nat -> Aliasing.Draws)
    requires Aliasing.Inverse(a) && Show(a, rows, random).complete
    ensures |Show(a, rows, random).items| == |rows|
    ensures forall k :: 0 <= k < |rows| ==> Show(a, rows, random).items[k].row == rows[k]
  {
    ShowMeaning(a, rows, random);
    var items := Show(a, rows, random).items;
    assert |RowsOf(items)| == |items|;
    assert forall k :: 0 <= k < |items| ==> RowsOf(items)[k] == items[k].row;
  }

  lemma {:induction false} ShowSnoc(
      a: Aliasing.Aliases, rows: seq<StoredConversation>, row: StoredConversation, random: nat -> Aliasing.Draws)
    ensures Show(a, rows + [row], random) == ShowNext(Show(a, rows, random), row, random(|rows|))
  {
    assert (rows + [row])[..|rows|] == rows;
  }

  lemma {:induction false} ShownNext(s: Shown, row: StoredConversation, draws: Aliasing.Draws)
    requires Aliasing.Inverse(s.aliases) && ShowNext(s, row, draws).complete
    ensures var r := ShowNext(s, row, draws);
            && s.complete && |r.items| == |s.items| + 1 && r.items[..|s.items|] == s.items
            && r.items[|s.items|].row == row && IdentifiesRow(s.aliases, row, draws, r.items[|s.items|].id)
  {
    RowIdentifier(s.aliases, row, draws);
  }

  /** Row `k` of the page has the identifier that is due to it. */
  ghost predicate ShownAs(a: Aliasing.Aliases, rows: seq<StoredConversation>, random: nat -> Aliasing.Draws, k: nat, item: ConversationItem)
    requires k < |rows|
  {
    item.row == rows[k] && IdentifiesRow(Show(a, rows[..k], random).aliases, rows[k], random(k), item.id)
  }

  /** Each row of a complete page is shown, in its place, under the identifier that is due
      to it. */
  lemma {:induction false} ShownIdentifiers(
      a: Aliasing.Aliases, rows: seq<StoredConversation>, random: nat -> Aliasing.Draws, k: nat)
    requires Aliasing.Inverse(a) && Show(a, rows, random).complete && k < |rows|
    ensures |Show(a, rows, random).items| == |rows|
    ensures ShownAs(a, rows, random, k, Show(a, rows, random).items[k])
  {
    var at := |rows| - 1;
    var init, row := rows[..at], rows[at];
    assert rows == init + [row];
    ShowSnoc(a, init, row, random);
    ShowMeaning(a, init, random);
    ShownNext(Show(a, init, random), row, random(at));
    ShownCount(a, init, random);
    if k < at {
      ShownIdentifiers(a, init, random, k);
      assert init[..k] == rows[..k] && init[k] == rows[k];
      var items := Show(a, rows, random).items;
      assert items[k] == items[..at][k];
    } else {
      assert rows[..k] == init;
    }
  }

  lemma {:induction false} StoppedShow(a: Aliasing.Aliases, rows: seq<StoredConversation>, random: nat -> Aliasing.Draws, i: nat)
    requires i <= |rows| && !Show(a, rows[..i], random).complete
    ensures Show(a, rows, random) == Show(a, rows[..i], random)
  {
    if i == |rows| {
      assert rows[..i] == rows;
    } else {
      var init := rows[..|rows| - 1];
      assert init[..i] == rows[..i];
      StoppedShow(a, init, random, i);
    }
  }

  method ShowRow(row: StoredConversation, aliases: Aliasing.ConversationAliases, draws: Aliasing.Draws)
    returns (id: Option<Aliasing.Name>)
    modifies aliases
    ensures id == Aliasing.Answer(old(aliases.View()), RowRequest(row, draws))
    ensures aliases.View() == Aliasing.Step(old(aliases.View()), RowRequest(row, draws))
  {
    if row.isAncsGroup {
      id := aliases.ExposeStableId(row.key);
    } else {
      id := aliases.IdFor(row.key, draws);
    }
  }

  method ShowRows(rows: seq<StoredConversation>, aliases: Aliasing.ConversationAliases, random: nat -> Aliasing.Draws)
    returns (items: seq<ConversationItem>, complete: bool)
    modifies aliases
    ensures Show(old(aliases.View()), rows, random) == Shown(aliases.View(), items, complete)
  {
    items := [];
    for i := 0 to |rows|
      invariant Show(old(aliases.View()), rows[..i], random) == Shown(aliases.View(), items, true)
    {
      assert rows[..i + 1][..i] == rows[..i];
      var id := ShowRow(rows[i], aliases, random(i));
      if id.None? {
        StoppedShow(old(aliases.View()), rows, random, i + 1);
        return items, false;
      }
      items := items + [ConversationItem(id.value, rows[i])];
    }
    assert rows[..|rows|] == rows;
    return items, true;
  }

  /** The part of `conversation_page` after the listing is known. */
  method ShowSlice(
      rows: seq<StoredConversation>, offset: nat, limit: nat, aliases: Aliasing.ConversationAliases, random: nat -> Aliasing.Draws)
    returns (r: Result<Page<ConversationItem>>)
    requires Aliasing.Inverse(aliases.View())
    modifies aliases
    ensures Aliasing.Inverse(aliases.View()) && Aliasing.Extends(aliases.View(), old(aliases.View()))
    ensures var cut := ConversationCut(rows, offset, limit);
            var shown := Show(old(aliases.View()), cut.items, random);
            && aliases.View() == shown.aliases
            && r == if shown.complete then Ok(Page(shown.items, CursorText(cut.next))) else Err(ServiceUnavailable)
    ensures r.Ok? ==> Resolvable(r.value.items, aliases.View())
  {
    var start := Min(offset, |rows|);
    var end := Min(start + limit, |rows|);
    ShowMeaning(aliases.View(), rows[start..end], random);
    var items, complete := ShowRows(rows[start..end], aliases, random);
    if !complete {
      return Err(ServiceUnavailable);
    }
    ShownCount(old(aliases.View()), rows[start..end], random);
    var next := if end < |rows| then Some(Cursor.Advance(offset, |items|)) else None;
    return Ok(Page(items, CursorText(next)));
  }

  /** `conversation_page`. Its errors are an invalid cursor, an invalid limit, and a row
      whose identifier could not be had. */
  method ConversationPage(
      repository: InMemoryConversationRepository, aliases: Aliasing.ConversationAliases,
      cursor: Option<string>, requested: Option<nat>, random: nat -> Aliasing.Draws)
    returns (r: Result<Page<ConversationItem>>)
    requires Aliasing.Inverse(aliases.View())
    modifies aliases
    ensures Aliasing.Inverse(aliases.View()) && Aliasing.Extends(aliases.View(), old(aliases.View()))
    ensures match Serve(Conversations, ConversationRows(repository.conversations), cursor, requested)
            case Err(status) => r == Err(status) && aliases.View() == old(aliases.View())
            case Ok(page) =>
              var shown := Show(old(aliases.View()), page.items, random);
              && aliases.View() == shown.aliases
              && r == if shown.complete then Ok(Page(shown.items, page.next)) else Err(ServiceUnavailable)
    ensures r.Ok? ==> Resolvable(r.value.items, aliases.View())
  {
    var parsed := Cursor.Parse(cursor);
    if parsed.None? {
      return Err(UnprocessableEntity);
    }
    var limit := PageLimit(requested);
    if limit.Err? {
      return Err(limit.status);
    }
    var rows := SortBy(repository.conversations, ConversationLe);
    r := ShowSlice(rows, parsed.value, limit.value, aliases, random);
  }

  /** A page of the messages of the conversation an identifier was issued for. */
  method MessagePage(
      repository: InMemoryConversationRepository, aliases: Aliasing.ConversationAliases,
      id: Aliasing.Name, cursor: Option<string>, requested: Option<nat>)
    returns (r: Result<Page<StoredMessage>>)
    ensures var key := Aliasing.Lookup(aliases.idToKey, id);
            r == if Cursor.Parse(cursor).None? || PageLimit(requested).Err? then Err(UnprocessableEntity)
                 else if key.None? then Err(Gone)
                 else Serve(Messages, MessageRows(repository.messages, key.value), cursor, requested)
  {
    var parsed := Cursor.Parse(cursor);
    if parsed.None? {
      return Err(UnprocessableEntity);
    }
    var limit := PageLimit(requested);
    if limit.Err? {
      return Err(limit.status);
    }
    var key := aliases.KeyFor(id);
    if key.None? {
      return Err(Gone);
    }
    if parsed.value > U16_MAX || limit.value + 1 > U16_MAX {
      return Err(UnprocessableEntity);
    }
    var rows := repository.MessagesFor(key.value, limit.value + 1, parsed.value);
    var hasMore := |rows| > limit.value;
    var items := rows[..Min(limit.value, |rows|)];
    var next := if hasMore then Some(Cursor.Advance(parsed.value, |items|)) else None;
    return Ok(Page(items, CursorText(next)));
  }

  // ---- following the cursors ----

  /** What a client has after following cursors: a complete listing, a part and the
      cursor to go on with, or a refusal. */
  datatype Walk<+T, +C> = Done(items: seq<T>) | More(items: seq<T>, cursor: C) | Refused(status: Status)

  type TextWalk<T> = Walk<T, Option<string>>

  /** One more request, with the cursor the previous one gave. */
  function FollowNext<T>(listing: Listing, rows: seq<T>, w: TextWalk<T>, requested: Option<nat>): TextWalk<T> {
    if !w.More? then w
    else
      match Serve(listing, rows, w.cursor, requested)
      case Err(status) => Refused(status)
      case Ok(page) =>
        if page.next.None? then Done(w.items + page.items) else More(w.items + page.items, page.next)
  }

  /** One request per element of `limits`, from the start of the listing. */
  function Follow<T>(listing: Listing, rows: seq<T>, limits: seq<Option<nat>>): TextWalk<T> {
    if limits == [] then More([], None)
    else FollowNext(listing, rows, Follow(listing, rows, limits[..|limits| - 1]), limits[|limits| - 1])
  }

  /** The same with offsets in place of cursor texts. */
  function FollowNextAt<T>(listing: Listing, rows: seq<T>, v: Walk<T, nat>, requested: Option<nat>): Walk<T, nat> {
    if !v.More? then v
    else
      match PageLimit(requested)
      case Err(status) => Refused(status)
      case Ok(limit) =>
        match CutOf(listing, rows, v.cursor, limit)
        case Err(status) => Refused(status)
        case Ok(cut) =>
          if cut.next.None? then Done(v.items + cut.items) else More(v.items + cut.items, cut.next.value)
  }

  function FollowAt<T>(listing: Listing, rows: seq<T>, limits: seq<Option<nat>>): Walk<T, nat> {
    if limits == [] then More([], 0)
    else FollowNextAt(listing, rows, FollowAt(listing, rows, limits[..|limits| - 1]), limits[|limits| - 1])
  }

  /** The cursor text stands for the offset. */
  ghost predicate Reads<T>(w: TextWalk<T>, v: Walk<T, nat>) {
    match v
    case Done(items) => w == Done(items)
    case More(items, offset) => w.More? && w.items == items && Cursor.Parse(w.cursor) == Some(offset)
    case Refused(status) => w == Refused(status)
  }

  lemma {:induction false} ReadsNext<T>(listing: Listing, rows: seq<T>, w: TextWalk<T>, v: Walk<T, nat>, requested: Option<nat>)
    requires Reads(w, v)
    ensures Reads(FollowNext(listing, rows, w, requested), FollowNextAt(listing, rows, v, requested))
  {
    if v.More? && PageLimit(requested).Ok? {
      var cut := CutOf(listing, rows, v.cursor, PageLimit(requested).value);
      if cut.Ok? && cut.value.next.Some? {
        Cursor.ParseEncode(cut.value.next.value);
      }
    }
  }

  /** Cursors in text lose nothing: whatever a client asks for, it gets what it would get
      by offset. */
  lemma {:induction false} TextReadsOffsets<T>(listing: Listing, rows: seq<T>, limits: seq<Option<nat>>)
    ensures Reads(Follow(listing, rows, limits), FollowAt(listing, rows, limits))
  {
    if limits != [] {
      var init := limits[..|limits| - 1];
      TextReadsOffsets(listing, rows, init);
      ReadsNext(listing, rows, Follow(listing, rows, init), FollowAt(listing, rows, init), limits[|limits| - 1]);
    }
  }

  predicate Valid(limits: seq<Option<nat>>) {
    forall i :: 0 <= i < |limits| ==> PageLimit(limits[i]).Ok?
  }

  /** How many rows valid limits ask for. */
  function Asked(limits: seq<Option<nat>>): nat
    requires Valid(limits)
  {
    if limits == [] then 0 else Asked(limits[..|limits| - 1]) + PageLimit(limits[|limits| - 1]).value
  }

  /** The last offset a page of this listing can start at. */
  function LastStart(listing: Listing): nat {
    match listing
    case Conversations => Cursor.MAX_CURSOR_OFFSET
    case Messages => U16_MAX
  }

  /** A page that starts within reach. */
  lemma {:induction false} FollowPage<T>(listing: Listing, rows: seq<T>, v: Walk<T, nat>, requested: Option<nat>)
    requires v.More? && v.cursor <= |rows| && v.cursor <= LastStart(listing) && PageLimit(requested).Ok?
    ensures var end := v.cursor + PageLimit(requested).value;
            FollowNextAt(listing, rows, v, requested)
            == if end >= |rows| then Done(v.items + rows[v.cursor..])
               else More(v.items + rows[v.cursor..end], Min(end, Cursor.MAX_CURSOR_OFFSET))
  {
    LookaheadIsSlicing(rows, v.cursor, PageLimit(requested).value);
  }

  /** A client that has asked for `n` rows: it has them, and either knows that it is done
      or goes on at exactly the next row. */
  function ReadTo<T>(rows: seq<T>, n: nat): Walk<T, nat> {
    if n >= |rows| then Done(rows) else More(rows[..n], n)
  }

  lemma {:induction false} ReadOn<T>(listing: Listing, rows: seq<T>, n: nat, requested: Option<nat>)
    requires n < |rows| <= LastStart(listing) + 1 && PageLimit(requested).Ok?
    ensures FollowNextAt(listing, rows, ReadTo(rows, n), requested) == ReadTo(rows, n + PageLimit(requested).value)
  {
    FollowPage(listing, rows, ReadTo(rows, n), requested);
    var end := n + PageLimit(requested).value;
    if end < |rows| {
      assert rows[..end] == rows[..n] + rows[n..end];
    } else {
      assert rows == rows[..n] + rows[n..];
    }
  }

  lemma {:induction false} ReadFirst<T>(listing: Listing, rows: seq<T>, requested: Option<nat>)
    requires |rows| <= LastStart(listing) + 1 && PageLimit(requested).Ok?
    ensures FollowNextAt(listing, rows, More([], 0), requested) == ReadTo(rows, PageLimit(requested).value)
  {
    if rows == [] {
      FollowPage(listing, rows, More([], 0), requested);
    } else {
      assert rows[..0] == [];
      ReadOn(listing, rows, 0, requested);
    }
  }

  lemma {:induction false} ReadMore<T>(listing: Listing, rows: seq<T>, n: nat, requested: Option<nat>)
    requires |rows| <= LastStart(listing) + 1 && PageLimit(requested).Ok?
    ensures FollowNextAt(listing, rows, ReadTo(rows, n), requested) == ReadTo(rows, n + PageLimit(requested).value)
  {
    if n < |rows| {
      ReadOn(listing, rows, n, requested);
    }
  }

  lemma {:induction false} FollowAtReads<T>(listing: Listing, rows: seq<T>, limits: seq<Option<nat>>)
    requires Valid(limits) && limits != [] && |rows| <= LastStart(listing) + 1
    ensures FollowAt(listing, rows, limits) == ReadTo(rows, Asked(limits))
  {
    var init, last := limits[..|limits| - 1], limits[|limits| - 1];
    if init == [] {
      ReadFirst(listing, rows, last);
    } else {
      FollowAtReads(listing, rows, init);
      ReadMore(listing, rows, Asked(init), last);
    }
  }

  /** Following the cursors from the start, in whatever page sizes, gives the rows in
      order and each once: all of them as soon as the sizes add up to enough, and
      before that exactly as many as were asked for, with a cursor for the next. */
  lemma {:induction false} PagesAreComplete<T>(listing: Listing, rows: seq<T>, limits: seq<Option<nat>>)
    requires Valid(limits) && limits != [] && |rows| <= LastStart(listing) + 1
    ensures Reads(Follow(listing, rows, limits), ReadTo(rows, Asked(limits)))
  {
    TextReadsOffsets(listing, rows, limits);
    FollowAtReads(listing, rows, limits);
  }

  /** Whatever the page sizes, enough of them give the whole listing. */
  ghost predicate AlwaysComplete<T>(listing: Listing, rows: seq<T>) {
    forall limits :: Valid(limits) && limits != [] && Asked(limits) >= |rows|
                     ==> Follow(listing, rows, limits) == Done(rows)
  }

  function OneByOne(n: nat): seq<Option<nat>> {
    if n == 0 then [] else OneByOne(n - 1) + [Some(1)]
  }

  lemma {:induction false} OneByOneAsks(n: nat)
    ensures Valid(OneByOne(n)) && Asked(OneByOne(n)) == n && |OneByOne(n)| == n
  {
    if n > 0 {
      OneByOneAsks(n - 1);
      assert OneByOne(n)[..n - 1] == OneByOne(n - 1);
    }
  }

  /** Where a client reading one row at a time stands in a listing that is too long: at an
      offset within reach, or at the first offset for which messages are refused. */
  ghost predicate Stuck<T>(listing: Listing, v: Walk<T, nat>) {
    match v
    case Done(_) => false
    case More(_, offset) => offset <= LastStart(listing) || (listing.Messages? && offset == LastStart(listing) + 1)
    case Refused(_) => true
  }

  lemma {:induction false} StuckStep<T>(listing: Listing, rows: seq<T>, v: Walk<T, nat>)
    requires |rows| > LastStart(listing) + 1 && Stuck(listing, v)
    ensures Stuck(listing, FollowNextAt(listing, rows, v, Some(1)))
  {
    if v.More? && v.cursor <= LastStart(listing) {
      FollowPage(listing, rows, v, Some(1));
    }
  }

  lemma {:induction false} FollowAtSnoc<T>(listing: Listing, rows: seq<T>, limits: seq<Option<nat>>, requested: Option<nat>)
    ensures FollowAt(listing, rows, limits + [requested])
         == FollowNextAt(listing, rows, FollowAt(listing, rows, limits), requested)
  {
    assert (limits + [requested])[..|limits|] == limits;
  }

  /** It never finishes: the conversation cursor stops advancing, the message cursor is
      refused. */
  lemma {:induction false} OneByOneNeverDone<T>(listing: Listing, rows: seq<T>, n: nat)
    requires |rows| > LastStart(listing) + 1
    ensures Stuck(listing, FollowAt(listing, rows, OneByOne(n)))
  {
    if n > 0 {
      var before := OneByOne(n - 1);
      OneByOneNeverDone(listing, rows, n - 1);
      StuckStep(listing, rows, FollowAt(listing, rows, before));
      FollowAtSnoc(listing, rows, before, Some(1));
      assert OneByOne(n) == before + [Some(1)];
    }
  }

  /** The exact reach of the cursors: 1,000,001 conversations and 65,536 messages. */
  lemma {:induction false} CompleteExactly<T>(listing: Listing, rows: seq<T>)
    ensures AlwaysComplete(listing, rows)
            <==> |rows| <= (if listing.Conversations? then 1_000_001 else 65_536)
  {
    if |rows| <= LastStart(listing) + 1 {
      forall limits | Valid(limits) && limits != [] && Asked(limits) >= |rows|
        ensures Follow(listing, rows, limits) == Done(rows)
      {
        PagesAreComplete(listing, rows, limits);
      }
    } else {
      var limits := OneByOne(|rows|);
      OneByOneAsks(|rows|);
      OneByOneNeverDone(listing, rows, |rows|);
      TextReadsOffsets(listing, rows, limits);
      assert Follow(listing, rows, limits) != Done(rows);
    }
  }

  /** Past that reach the conversation cursor repeats itself: the page that starts at
      1,000,000 and is not the last is served again for ever, at every page size that
      does not reach the end. */
  lemma {:induction false} CursorRepeats<T>(rows: seq<T>, requested: Option<nat>)
    requires PageLimit(requested).Ok? && |rows| > Cursor.MAX_CURSOR_OFFSET + PageLimit(requested).value
    ensures var stuck := Some(Cursor.Encode(Cursor.MAX_CURSOR_OFFSET));
            var r := Serve(Conversations, rows, stuck, requested);
            r.Ok? && r.value.next == stuck
  {
    Cursor.ParseEncode(Cursor.MAX_CURSOR_OFFSET);
  }

  /** Both listings end to end: a client that follows the cursors over an unchanged store
      receives every stored conversation, or every stored message of one conversation,
      exactly as often as it is stored and in the listing order. */
  lemma {:induction false} ConversationsReadOnce(stored: seq<StoredConversation>, limits: seq<Option<nat>>)
    requires Valid(limits) && limits != [] && |stored| <= 1_000_001 && Asked(limits) >= |stored|
    ensures var w := Follow(Conversations, ConversationRows(stored), limits);
            w.Done? && multiset(w.items) == multiset(stored) && LatestFirst(w.items)
  {
    ConversationRowsMeaning(stored);
    PagesAreComplete(Conversations, ConversationRows(stored), limits);
  }

  lemma {:induction false} MessagesReadOnce(
      stored: seq<StoredMessage>, key: Aliasing.Name, limits: seq<Option<nat>>, m: StoredMessage)
    requires Valid(limits) && limits != []
    requires |InConversation(stored, key)| <= 65_536 && Asked(limits) >= |InConversation(stored, key)|
    ensures var w := Follow(Messages, MessageRows(stored, key), limits);
            && w.Done? && NewestFirst(w.items)
            && multiset(w.items)[m] == if m.key == key then multiset(stored)[m] else 0
  {
    MessageOrder();
    SortByMeaning(InConversation(stored, key), MessageLe);
    MessageRowsMeaning(stored, key, m);
    PagesAreComplete(Messages, MessageRows(stored, key), limits);
  }
}

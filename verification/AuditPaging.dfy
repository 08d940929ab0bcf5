/** Keyset pagination of the audit log: newest first, a cursor naming the last event of a page,
    and one extra row fetched to see whether there is more. */
module AuditPaging {
  import opened Wrappers

  const MAX_AUDIT_READ_LIMIT := 100

  datatype AuditEvent = AuditEvent(
    id: string, tenantId: string, createdAt: int, actorUserId: string, actionType: string,
    entityType: string, entityId: string, status: Option<string>)

  datatype Cursor = Cursor(createdAt: int, id: string)

  /** An absent or empty text filter is no filter. */
  datatype Filters = Filters(
    projectId: string, actorUserId: string, actionType: string, executionResult: string,
    fromDate: Option<int>, toDate: Option<int>)

  datatype Query = Query(tenantId: string, filters: Filters) {
    predicate Matches(e: AuditEvent) {
      && e.tenantId == tenantId
      && (filters.projectId == "" || (e.entityType == "Project" && e.entityId == filters.projectId))
      && (filters.actorUserId == "" || e.actorUserId == filters.actorUserId)
      && (filters.actionType == "" || e.actionType == filters.actionType)
      && (filters.executionResult == "" || e.status == Some(filters.executionResult))
      && (filters.fromDate.None? || e.createdAt >= filters.fromDate.value)
      && (filters.toDate.None? || e.createdAt <= filters.toDate.value)
    }
  }

  // ----- The order -----

  function KeyOf(e: AuditEvent): Cursor { Cursor(e.createdAt, e.id) }

  /** `a` comes after `b` in the list: it is strictly older. */
  predicate Older(a: Cursor, b: Cursor) {
    if a.createdAt != b.createdAt then a.createdAt < b.createdAt else Less(a.id, b.id)
  }

  lemma OlderIsTransitive(a: Cursor, b: Cursor, c: Cursor)
    requires Older(a, b) && Older(b, c)
    ensures Older(a, c)
  {
    if a.createdAt == b.createdAt == c.createdAt {
      LessIsTransitive(a.id, b.id, c.id);
    }
  }

  lemma OlderIsTotal(a: Cursor, b: Cursor)
    ensures !Older(a, a) && (a != b ==> Older(a, b) || Older(b, a)) && !(Older(a, b) && Older(b, a))
  {
    LessIsTotal(a.id, b.id);
  }

  // ----- The in-memory data source -----

  function Matching(q: Query, events: seq<AuditEvent>): (r: seq<AuditEvent>)
    ensures forall e :: e in r <==> e in events && q.Matches(e)
  {
    if |events| == 0 then []
    else (if q.Matches(events[0]) then [events[0]] else []) + Matching(q, events[1..])
  }

  function Insert(e: AuditEvent, s: seq<AuditEvent>): (r: seq<AuditEvent>)
    ensures |r| == |s| + 1
  {
    if |s| == 0 || !Older(KeyOf(e), KeyOf(s[0])) then [e] + s
    else [s[0]] + Insert(e, s[1..])
  }

  function SortNewestFirst(s: seq<AuditEvent>): (r: seq<AuditEvent>)
    ensures |r| == |s|
  {
    if |s| == 0 then [] else Insert(s[0], SortNewestFirst(s[1..]))
  }

  predicate Below(e: AuditEvent, cursor: Option<Cursor>) {
    cursor.None? || Older(KeyOf(e), cursor.value)
  }

  function BelowCursor(s: seq<AuditEvent>, cursor: Option<Cursor>): (r: seq<AuditEvent>)
    ensures forall e :: e in r <==> e in s && Below(e, cursor)
  {
    if |s| == 0 then []
    else (if Below(s[0], cursor) then [s[0]] else []) + BelowCursor(s[1..], cursor)
  }

  function Take(s: seq<AuditEvent>, n: nat): seq<AuditEvent> { if |s| <= n then s else s[..n] }

  /** Everything still to be read behind the cursor. */
  function Rest(q: Query, events: seq<AuditEvent>, cursor: Option<Cursor>): seq<AuditEvent> {
    BelowCursor(SortNewestFirst(Matching(q, events)), cursor)
  }

  class AuditLog {
    var auditEvents: seq<AuditEvent>

    constructor ()
      ensures auditEvents == []
    {
      auditEvents := [];
    }

    method AppendAuditEvent(e: AuditEvent)
      modifies this
      ensures auditEvents == [e] + old(auditEvents)
    {
      auditEvents := [e] + auditEvents;
    }

    function ListAuditEvents(q: Query, cursor: Option<Cursor>, limit: nat): seq<AuditEvent>
      reads this
    {
      Take(BelowCursor(SortNewestFirst(Matching(q, auditEvents)), cursor), limit)
    }
  }

  // ----- Sorting and filtering commute -----

  ghost predicate Descending(s: seq<AuditEvent>) {
    forall i, j :: 0 <= i < j < |s| ==> Older(KeyOf(s[j]), KeyOf(s[i]))
  }

  ghost predicate DistinctIds(s: seq<AuditEvent>) {
    forall i, j :: 0 <= i < j < |s| ==> s[i].id != s[j].id
  }

  lemma {:induction false} InsertKeepsOrder(e: AuditEvent, s: seq<AuditEvent>)
    requires Descending(s) && forall x :: x in s ==> x.id != e.id
    ensures Descending(Insert(e, s)) && forall x :: x in Insert(e, s) <==> x in s || x == e
  {
    if |s| > 0 {
      assert s[0] in s;
      OlderIsTotal(KeyOf(e), KeyOf(s[0]));
      if Older(KeyOf(e), KeyOf(s[0])) {
        InsertKeepsOrder(e, s[1..]);
        var r := Insert(e, s[1..]);
        forall k | 0 <= k < |r|
          ensures Older(KeyOf(r[k]), KeyOf(s[0]))
        {
          assert r[k] in r;
        }
      } else {
        forall k | 0 <= k < |s|
          ensures Older(KeyOf(s[k]), KeyOf(e))
        {
          if k > 0 {
            OlderIsTransitive(KeyOf(s[k]), KeyOf(s[0]), KeyOf(e));
          }
        }
      }
    }
  }

  lemma {:induction false} SortKeeps(s: seq<AuditEvent>)
    ensures forall x :: x in SortNewestFirst(s) <==> x in s
  {
    if |s| > 0 {
      SortKeeps(s[1..]);
      InsertKeeps(s[0], SortNewestFirst(s[1..]));
      assert s == [s[0]] + s[1..];
    }
  }

  lemma {:induction false} InsertKeeps(e: AuditEvent, s: seq<AuditEvent>)
    ensures forall x :: x in Insert(e, s) <==> x in s || x == e
  {
    if |s| > 0 && Older(KeyOf(e), KeyOf(s[0])) {
      InsertKeeps(e, s[1..]);
      assert s == [s[0]] + s[1..];
    }
  }

  lemma {:induction false} SortSorts(s: seq<AuditEvent>)
    requires DistinctIds(s)
    ensures Descending(SortNewestFirst(s)) && forall x :: x in SortNewestFirst(s) <==> x in s
  {
    if |s| > 0 {
      SortSorts(s[1..]);
      InsertKeepsOrder(s[0], SortNewestFirst(s[1..]));
    }
  }

  lemma BelowCons(x: AuditEvent, s: seq<AuditEvent>, cursor: Option<Cursor>)
    ensures BelowCursor([x] + s, cursor) == if Below(x, cursor) then [x] + BelowCursor(s, cursor) else BelowCursor(s, cursor)
  {
    assert ([x] + s)[1..] == s;
  }

  lemma InsertCons(e: AuditEvent, x: AuditEvent, s: seq<AuditEvent>)
    requires Older(KeyOf(e), KeyOf(x))
    ensures Insert(e, [x] + s) == [x] + Insert(e, s)
  {
    assert ([x] + s)[1..] == s;
  }

  lemma {:induction false} InsertThenFilter(e: AuditEvent, s: seq<AuditEvent>, cursor: Option<Cursor>)
    requires Descending(s) && forall x :: x in s ==> x.id != e.id
    ensures BelowCursor(Insert(e, s), cursor) ==
            if Below(e, cursor) then Insert(e, BelowCursor(s, cursor)) else BelowCursor(s, cursor)
  {
    if |s| == 0 {
      BelowCons(e, [], cursor);
    } else if Older(KeyOf(e), KeyOf(s[0])) {
      assert s == [s[0]] + s[1..];
      InsertThenFilter(e, s[1..], cursor);
      InsertCons(e, s[0], s[1..]);
      BelowCons(s[0], s[1..], cursor);
      BelowCons(s[0], Insert(e, s[1..]), cursor);
      InsertCons(e, s[0], BelowCursor(s[1..], cursor));
    } else {
      BelowCons(e, s, cursor);
      FirstKept(e, s, cursor);
    }
  }

  lemma FirstKept(e: AuditEvent, s: seq<AuditEvent>, cursor: Option<Cursor>)
    requires Descending(s) && |s| > 0 && KeyOf(e) != KeyOf(s[0]) && !Older(KeyOf(e), KeyOf(s[0]))
    ensures Insert(e, BelowCursor(s, cursor)) == [e] + BelowCursor(s, cursor)
  {
    var kept := BelowCursor(s, cursor);
    OlderIsTotal(KeyOf(e), KeyOf(s[0]));
    if |kept| > 0 {
      assert kept[0] in kept && kept[0] in s;
      var k :| 0 <= k < |s| && s[k] == kept[0];
      if k > 0 {
        OlderIsTransitive(KeyOf(s[k]), KeyOf(s[0]), KeyOf(e));
      }
      OlderIsTotal(KeyOf(e), KeyOf(s[k]));
    }
  }

  lemma {:induction false} SortThenFilter(s: seq<AuditEvent>, cursor: Option<Cursor>)
    requires DistinctIds(s)
    ensures BelowCursor(SortNewestFirst(s), cursor) == SortNewestFirst(BelowCursor(s, cursor))
  {
    if |s| > 0 {
      SortThenFilter(s[1..], cursor);
      SortSorts(s[1..]);
      InsertThenFilter(s[0], SortNewestFirst(s[1..]), cursor);
      assert s == [s[0]] + s[1..];
      BelowCons(s[0], s[1..], cursor);
      SortCons(s[0], BelowCursor(s[1..], cursor));
    }
  }

  lemma SortCons(x: AuditEvent, s: seq<AuditEvent>)
    ensures SortNewestFirst([x] + s) == Insert(x, SortNewestFirst(s))
  {
    assert ([x] + s)[1..] == s;
  }

  // ----- What is left behind a cursor -----

  lemma {:induction false} MatchingIsDistinct(q: Query, events: seq<AuditEvent>)
    requires DistinctIds(events)
    ensures DistinctIds(Matching(q, events))
  {
    if |events| > 0 {
      MatchingIsDistinct(q, events[1..]);
      var tail := Matching(q, events[1..]);
      forall k | 0 <= k < |tail|
        ensures tail[k].id != events[0].id
      {
        assert tail[k] in tail;
      }
    }
  }

  lemma {:induction false} FilterKeepsOrder(s: seq<AuditEvent>, cursor: Option<Cursor>)
    requires Descending(s)
    ensures Descending(BelowCursor(s, cursor))
  {
    if |s| > 0 {
      FilterKeepsOrder(s[1..], cursor);
      var tail := BelowCursor(s[1..], cursor);
      forall k | 0 <= k < |tail|
        ensures Older(KeyOf(tail[k]), KeyOf(s[0]))
      {
        assert tail[k] in tail && tail[k] in s[1..];
      }
    }
  }

  lemma RestIsDescending(q: Query, events: seq<AuditEvent>, cursor: Option<Cursor>)
    requires DistinctIds(events)
    ensures Descending(Rest(q, events, cursor))
    ensures forall e :: e in Rest(q, events, cursor) <==> e in events && q.Matches(e) && Below(e, cursor)
  {
    MatchingIsDistinct(q, events);
    SortSorts(Matching(q, events));
    FilterKeepsOrder(SortNewestFirst(Matching(q, events)), cursor);
  }

  lemma {:induction false} FilterAppended(q: Query, added: seq<AuditEvent>, events: seq<AuditEvent>, cursor: Option<Cursor>)
    requires forall e :: e in added ==> !Below(e, cursor)
    ensures BelowCursor(Matching(q, added + events), cursor) == BelowCursor(Matching(q, events), cursor)
  {
    if |added| == 0 {
      assert added + events == events;
    } else {
      assert (added + events)[1..] == added[1..] + events;
      FilterAppended(q, added[1..], events, cursor);
      assert added[0] in added;
      var tail := Matching(q, added[1..] + events);
      BelowCons(added[0], tail, cursor);
      assert [] + tail == tail;
      assert Matching(q, added + events) == if q.Matches(added[0]) then [added[0]] + tail else tail;
    }
  }

  /** Events that land at or before the cursor leave the rest of the list alone. */
  lemma NewerEventsAreInvisible(q: Query, added: seq<AuditEvent>, events: seq<AuditEvent>, cursor: Option<Cursor>)
    requires DistinctIds(added + events)
    requires forall e :: e in added ==> !Below(e, cursor)
    ensures Rest(q, added + events, cursor) == Rest(q, events, cursor)
  {
    assert DistinctIds(events) by {
      forall i, j | 0 <= i < j < |events|
        ensures events[i].id != events[j].id
      {
        assert events[i] == (added + events)[|added| + i] && events[j] == (added + events)[|added| + j];
      }
    }
    MatchingIsDistinct(q, added + events);
    MatchingIsDistinct(q, events);
    SortThenFilter(Matching(q, added + events), cursor);
    SortThenFilter(Matching(q, events), cursor);
    FilterAppended(q, added, events, cursor);
  }

  lemma {:induction false} FilterTwice(s: seq<AuditEvent>, outer: Option<Cursor>, inner: Cursor)
    requires outer.Some? ==> Older(inner, outer.value)
    ensures BelowCursor(BelowCursor(s, outer), Some(inner)) == BelowCursor(s, Some(inner))
  {
    if |s| > 0 {
      FilterTwice(s[1..], outer, inner);
      assert s == [s[0]] + s[1..];
      BelowCons(s[0], s[1..], outer);
      BelowCons(s[0], s[1..], Some(inner));
      BelowCons(s[0], BelowCursor(s[1..], outer), Some(inner));
      if outer.Some? && Older(KeyOf(s[0]), inner) {
        OlderIsTransitive(KeyOf(s[0]), inner, outer.value);
      }
    }
  }

  /** In a descending list, what is below an element is what follows it. */
  lemma {:induction false} BelowAnElement(s: seq<AuditEvent>, n: nat)
    requires Descending(s) && n < |s|
    ensures BelowCursor(s, Some(KeyOf(s[n]))) == s[n + 1..]
  {
    var c := Some(KeyOf(s[n]));
    OlderIsTotal(KeyOf(s[0]), KeyOf(s[n]));
    if n == 0 {
      AllBelow(s[1..], KeyOf(s[0]));
    } else {
      BelowAnElement(s[1..], n - 1);
      assert s[1..][n..] == s[n + 1..];
    }
  }

  lemma {:induction false} AllBelow(s: seq<AuditEvent>, c: Cursor)
    requires forall k :: 0 <= k < |s| ==> Older(KeyOf(s[k]), c)
    ensures BelowCursor(s, Some(c)) == s
  {
    if |s| > 0 {
      AllBelow(s[1..], c);
    }
  }

  /** The cursor of element `n` of the rest leaves exactly the elements after it. */
  lemma RestBehind(q: Query, events: seq<AuditEvent>, cursor: Option<Cursor>, n: nat)
    requires DistinctIds(events) && n < |Rest(q, events, cursor)|
    ensures var rest := Rest(q, events, cursor);
            Rest(q, events, Some(KeyOf(rest[n]))) == rest[n + 1..]
  {
    var rest := Rest(q, events, cursor);
    RestIsDescending(q, events, cursor);
    assert rest[n] in rest;
    FilterTwice(SortNewestFirst(Matching(q, events)), cursor, KeyOf(rest[n]));
    BelowAnElement(rest, n);
  }

  // ----- The cursor on the wire -----

  /** The platform calls behind the codec: ISO dates and base64url, as functions. */
  datatype Platform = Platform(
    toIso: int -> string, parseDate: string -> Option<int>,
    encode: string -> string, decode: string -> string)

  /** Times a Date object can hold, in milliseconds. */
  predicate ValidTime(t: int) { -8640000000000000 <= t <= 8640000000000000 }

  /** What the codec relies on: dates and base64url (section 5 of RFC 4648) survive a round
      trip, an ISO date has no bar, and an encoded text has no blank to trim. */
  ghost predicate Lawful(p: Platform) {
    && (forall t :: ValidTime(t) ==> p.toIso(t) != "" && '|' !in p.toIso(t) && p.parseDate(p.toIso(t)) == Some(t))
    && (forall s :: p.decode(p.encode(s)) == s)
    && (forall s :: Trim(p.encode(s)) == p.encode(s) && (s != "" ==> p.encode(s) != ""))
  }

  function Tally(t: int): string { if t >= 0 then seq(t + 1, _ => 'a') else seq(-t, _ => 'b') }

  function Untally(s: string): Option<int> {
    if s == "" then None else if s[0] == 'a' then Some(|s| - 1) else Some(-|s|)
  }

  function Quote(s: string): string { "x" + s + "x" }

  function Unquote(s: string): string { if |s| >= 2 then s[1..|s| - 1] else "" }

  /** The laws can be kept: tally marks for dates and quotes for the encoding do. */
  lemma LawsAreConsistent()
    ensures Lawful(Platform(Tally, Untally, Quote, Unquote))
  {
    forall s
      ensures Unquote(Quote(s)) == s && Trim(Quote(s)) == Quote(s) && Quote(s) != ""
    {
      var q := Quote(s);
      assert q[1..|q| - 1] == s && q[0] == 'x' && q[|q| - 1] == 'x';
    }
    forall t: int
      ensures Tally(t) != "" && '|' !in Tally(t) && Untally(Tally(t)) == Some(t)
    {
    }
  }

  function EncodeCursor(p: Platform, c: Cursor): string { p.encode(p.toIso(c.createdAt) + "|" + c.id) }

  datatype ParsedCursor = Start | At(cursor: Cursor) | Invalid

  /** Index of the first bar, or the length when there is none. */
  function BarAt(s: string): (n: nat)
    ensures n <= |s|
  {
    if |s| == 0 || s[0] == '|' then 0 else 1 + BarAt(s[1..])
  }

  lemma {:induction false} BarMeans(s: string)
    ensures '|' !in s[..BarAt(s)] && (BarAt(s) < |s| ==> s[BarAt(s)] == '|')
  {
    if |s| > 0 && s[0] != '|' {
      BarMeans(s[1..]);
      assert s[..BarAt(s)] == [s[0]] + s[1..][..BarAt(s[1..])];
    }
  }

  predicate IdFits(id: string) { 1 <= |id| <= 128 }

  function ParseCursor(p: Platform, value: Option<string>): ParsedCursor {
    var normalized := if value.None? then "" else Trim(value.value);
    if normalized == "" then Start
    else
      var decoded := p.decode(normalized);
      var separator := BarAt(decoded);
      if separator == 0 || separator == |decoded| then Invalid
      else
        var id := decoded[separator + 1..];
        var createdAt := p.parseDate(decoded[..separator]);
        if !IdFits(id) || createdAt.None? then Invalid else At(Cursor(createdAt.value, id))
  }

  lemma {:induction false} FirstBar(iso: string, id: string)
    requires '|' !in iso
    ensures BarAt(iso + "|" + id) == |iso|
  {
    if |iso| > 0 {
      assert (iso + "|" + id)[1..] == iso[1..] + "|" + id;
      FirstBar(iso[1..], id);
    }
  }

  /** Parsing undoes encoding for exactly the ids of 1 to 128 characters, bars included. */
  lemma CursorRoundTrip(p: Platform, c: Cursor)
    requires Lawful(p) && ValidTime(c.createdAt)
    ensures ParseCursor(p, Some(EncodeCursor(p, c))) == if IdFits(c.id) then At(c) else Invalid
  {
    var iso := p.toIso(c.createdAt);
    var text := iso + "|" + c.id;
    FirstBar(iso, c.id);
    assert Trim(p.encode(text)) == p.encode(text) && p.decode(p.encode(text)) == text;
    assert text[..|iso|] == iso && text[|iso| + 1..] == c.id;
  }

  /** The text names the cursor: a date, a bar and an id, encoded, with whitespace around it or not. */
  ghost predicate Spells(p: Platform, text: string, c: Cursor) {
    exists date: string ::
      && p.decode(Trim(text)) == date + "|" + c.id
      && date != "" && '|' !in date && p.parseDate(date) == Some(c.createdAt) && 1 <= |c.id| <= 128
  }

  /** Main result on cursors: no cursor is meant if and only if the text is missing or blank, and a
      cursor is read if and only if the text spells it; any other text is refused. */
  lemma CursorMeans(p: Platform, value: Option<string>)
    ensures ParseCursor(p, value).Start? <==> value.None? || forall c :: c in value.value ==> IsWhitespace(c)
    ensures forall c :: ParseCursor(p, value) == At(c) <==> !ParseCursor(p, value).Start? && Spells(p, value.value, c)
  {
    if value.Some? {
      TrimEmpty(value.value);
      if Trim(value.value) != "" {
        forall c
          ensures ParseCursor(p, value) == At(c) <==> Spells(p, value.value, c)
        {
          SpelledOnce(p, value.value, c);
        }
      }
    }
  }

  lemma SpelledOnce(p: Platform, text: string, c: Cursor)
    requires Trim(text) != ""
    ensures ParseCursor(p, Some(text)) == At(c) <==> Spells(p, text, c)
  {
    var decoded := p.decode(Trim(text));
    var n := BarAt(decoded);
    BarMeans(decoded);
    if n < |decoded| {
      assert decoded == decoded[..n] + "|" + decoded[n + 1..];
    }
    if Spells(p, text, c) {
      var date: string :| decoded == date + "|" + c.id && date != "" && '|' !in date && p.parseDate(date) == Some(c.createdAt);
      FirstBar(date, c.id);
      assert decoded[..n] == date && decoded[n + 1..] == c.id;
    }
  }

  // ----- The endpoint -----

  datatype Response = Page(auditEvents: seq<AuditEvent>, nextCursor: Option<string>) | InvalidAuditCursor

  /** One request: the window, and a cursor if the extra row showed that there is more. */
  function Respond(p: Platform, q: Query, events: seq<AuditEvent>, limit: nat, cursor: Option<string>): Response
    requires limit >= 1
  {
    var parsed := ParseCursor(p, cursor);
    if parsed.Invalid? then InvalidAuditCursor
    else Window(p, Take(Rest(q, events, if parsed.At? then Some(parsed.cursor) else None), limit + 1), limit)
  }

  function Window(p: Platform, page: seq<AuditEvent>, limit: nat): Response
    requires limit >= 1
  {
    var hasMore := |page| > limit;
    var window := if hasMore then page[..limit] else page;
    Page(window, if hasMore && |window| > 0 then Some(EncodeCursor(p, KeyOf(window[|window| - 1]))) else None)
  }

  lemma WindowOf(p: Platform, rest: seq<AuditEvent>, limit: nat)
    requires limit >= 1
    ensures Window(p, Take(rest, limit + 1), limit) ==
            if |rest| <= limit then Page(rest, None)
            else Page(rest[..limit], Some(EncodeCursor(p, KeyOf(rest[limit - 1]))))
  {
    if |rest| > limit {
      assert Take(rest, limit + 1)[..limit] == rest[..limit];
    }
  }

  /** What a page means: the newest matching events below the cursor, at most `limit` of them,
      strictly newest first, and `more` exactly when there are others, all of them older. */
  ghost predicate ShowsNewest(q: Query, events: seq<AuditEvent>, limit: nat, cursor: Option<Cursor>, shown: seq<AuditEvent>, more: bool) {
    && |shown| <= limit && Descending(shown)
    && (forall e :: e in shown ==> e in events && q.Matches(e) && Below(e, cursor))
    && (forall e, x :: e in events && q.Matches(e) && Below(e, cursor) && e !in shown && x in shown ==> Older(KeyOf(e), KeyOf(x)))
    && (more <==> exists e :: e in events && q.Matches(e) && Below(e, cursor) && e !in shown)
  }

  lemma FirstAreNewest(q: Query, events: seq<AuditEvent>, limit: nat, cursor: Option<Cursor>)
    requires limit >= 1 && DistinctIds(events)
    ensures var rest := Rest(q, events, cursor);
      ShowsNewest(q, events, limit, cursor, Take(rest, limit), |rest| > limit)
  {
    var rest := Rest(q, events, cursor);
    var shown := Take(rest, limit);
    RestIsDescending(q, events, cursor);
    RestSplits(rest, shown);
    if |rest| > limit {
      assert rest[limit] in rest && rest[limit] !in shown;
    }
  }

  lemma RestSplits(rest: seq<AuditEvent>, shown: seq<AuditEvent>)
    requires Descending(rest) && shown <= rest
    ensures Descending(shown) && forall e :: e in shown ==> e in rest
    ensures forall k :: |shown| <= k < |rest| ==> rest[k] !in shown
    ensures forall e, x :: e in rest && e !in shown && x in shown ==> Older(KeyOf(e), KeyOf(x))
  {
    assert forall k :: 0 <= k < |shown| ==> rest[k] == shown[k] && rest[k] in shown;
    forall k | |shown| <= k < |rest|
      ensures rest[k] !in shown
    {
      OlderIsTotal(KeyOf(rest[k]), KeyOf(rest[k]));
    }
    forall e, x | e in rest && e !in shown && x in shown
      ensures Older(KeyOf(e), KeyOf(x))
    {
      var i :| 0 <= i < |rest| && rest[i] == e;
      var j :| 0 <= j < |shown| && shown[j] == x;
      assert rest[j] == x;
    }
  }

  lemma ResponseShowsNewest(p: Platform, q: Query, events: seq<AuditEvent>, limit: nat, text: Option<string>)
    requires limit >= 1 && DistinctIds(events)
    ensures var parsed, r := ParseCursor(p, text), Respond(p, q, events, limit, text);
      && (r.InvalidAuditCursor? <==> parsed.Invalid?)
      && (r.Page? ==> ShowsNewest(q, events, limit, if parsed.At? then Some(parsed.cursor) else None,
                                  r.auditEvents, r.nextCursor.Some?))
  {
    var parsed := ParseCursor(p, text);
    if !parsed.Invalid? {
      var cursor := if parsed.At? then Some(parsed.cursor) else None;
      WindowOf(p, Rest(q, events, cursor), limit);
      FirstAreNewest(q, events, limit, cursor);
    }
  }

  /** A page is the beginning of what is left: all of it, or `limit` events and the cursor of the last. */
  lemma PageBegins(p: Platform, q: Query, events: seq<AuditEvent>, limit: nat, text: Option<string>, r: Response)
    requires limit >= 1 && r == Respond(p, q, events, limit, text) && r.Page?
    ensures var parsed := ParseCursor(p, text);
      var rest := Rest(q, events, if parsed.At? then Some(parsed.cursor) else None);
      && r.auditEvents <= rest && |r.auditEvents| <= limit
      && (r.nextCursor.None? ==> r.auditEvents == rest)
      && (r.nextCursor.Some? ==>
           && |r.auditEvents| == limit
           && r.nextCursor.value == p.encode(p.toIso(rest[limit - 1].createdAt) + "|" + rest[limit - 1].id))
  {
    var parsed := ParseCursor(p, text);
    WindowOf(p, Rest(q, events, if parsed.At? then Some(parsed.cursor) else None), limit);
  }

  /** What a page holds, in the fields of its events and for any log. */
  lemma PageHolds(q: Query, events: seq<AuditEvent>, cursor: Option<Cursor>, shown: seq<AuditEvent>)
    requires shown <= Rest(q, events, cursor)
    ensures forall e :: e in shown ==>
      && e in events && e.tenantId == q.tenantId
      && (q.filters.projectId == "" || (e.entityType == "Project" && e.entityId == q.filters.projectId))
      && (q.filters.actorUserId == "" || e.actorUserId == q.filters.actorUserId)
      && (q.filters.actionType == "" || e.actionType == q.filters.actionType)
      && (q.filters.executionResult == "" || e.status == Some(q.filters.executionResult))
      && (q.filters.fromDate == None || q.filters.fromDate.value <= e.createdAt)
      && (q.filters.toDate == None || e.createdAt <= q.filters.toDate.value)
    ensures cursor == None && shown == Rest(q, events, cursor) ==> forall e ::
      && e in events && e.tenantId == q.tenantId
      && (q.filters.projectId == "" || (e.entityType == "Project" && e.entityId == q.filters.projectId))
      && (q.filters.actorUserId == "" || e.actorUserId == q.filters.actorUserId)
      && (q.filters.actionType == "" || e.actionType == q.filters.actionType)
      && (q.filters.executionResult == "" || e.status == Some(q.filters.executionResult))
      && (q.filters.fromDate == None || q.filters.fromDate.value <= e.createdAt)
      && (q.filters.toDate == None || e.createdAt <= q.filters.toDate.value)
      ==> e in shown
  {
    WhatIsLeft(q, events, cursor);
    assert forall e :: e in shown ==> e in Rest(q, events, cursor);
  }

  lemma WhatIsLeft(q: Query, events: seq<AuditEvent>, cursor: Option<Cursor>)
    ensures forall e :: e in Rest(q, events, cursor) <==> e in events && q.Matches(e) && Below(e, cursor)
  {
    SortKeeps(Matching(q, events));
  }

  /** Newest first: by time, and by id from the greatest down among events of one moment. */
  lemma PageIsOrdered(p: Platform, q: Query, events: seq<AuditEvent>, limit: nat, text: Option<string>, r: Response)
    requires limit >= 1 && DistinctIds(events) && r == Respond(p, q, events, limit, text) && r.Page?
    ensures forall i, j :: 0 <= i < j < |r.auditEvents| ==> var a, b := r.auditEvents[i], r.auditEvents[j];
      a.createdAt > b.createdAt || (a.createdAt == b.createdAt && Less(b.id, a.id))
  {
    var parsed := ParseCursor(p, text);
    var cursor := if parsed.At? then Some(parsed.cursor) else None;
    PageBegins(p, q, events, limit, text, r);
    RestIsDescending(q, events, cursor);
    BeginningIsOrdered(Rest(q, events, cursor), r.auditEvents);
  }

  lemma BeginningIsOrdered(rest: seq<AuditEvent>, shown: seq<AuditEvent>)
    requires Descending(rest) && shown <= rest
    ensures forall i, j :: 0 <= i < j < |shown| ==> var a, b := shown[i], shown[j];
      a.createdAt > b.createdAt || (a.createdAt == b.createdAt && Less(b.id, a.id))
  {
    assert forall i :: 0 <= i < |shown| ==> shown[i] == rest[i];
  }

  /** A page behind a cursor holds only what is strictly older. */
  lemma PageIsBehind(p: Platform, q: Query, events: seq<AuditEvent>, limit: nat, text: Option<string>, r: Response, c: Cursor)
    requires limit >= 1 && r == Respond(p, q, events, limit, text) && r.Page? && ParseCursor(p, text) == At(c)
    ensures forall e :: e in r.auditEvents ==> e.createdAt < c.createdAt || (e.createdAt == c.createdAt && Less(e.id, c.id))
  {
    PageBegins(p, q, events, limit, text, r);
    WhatIsLeft(q, events, Some(c));
    assert forall e :: e in r.auditEvents ==> e in Rest(q, events, Some(c));
  }

  method GetAuditEvents(p: Platform, log: AuditLog, q: Query, limit: nat, cursor: Option<string>) returns (r: Response)
    requires 1 <= limit <= MAX_AUDIT_READ_LIMIT
    ensures r == Respond(p, q, log.auditEvents, limit, cursor)
    ensures r.InvalidAuditCursor? <==>
      cursor.Some? && (exists c :: c in cursor.value && !IsWhitespace(c)) && !exists c :: Spells(p, cursor.value, c)
    ensures r.Page? ==> forall e :: e in r.auditEvents ==>
      && e in log.auditEvents && e.tenantId == q.tenantId
      && (q.filters.projectId == "" || (e.entityType == "Project" && e.entityId == q.filters.projectId))
      && (q.filters.actorUserId == "" || e.actorUserId == q.filters.actorUserId)
      && (q.filters.actionType == "" || e.actionType == q.filters.actionType)
      && (q.filters.executionResult == "" || e.status == Some(q.filters.executionResult))
      && (q.filters.fromDate == None || q.filters.fromDate.value <= e.createdAt)
      && (q.filters.toDate == None || e.createdAt <= q.filters.toDate.value)
    ensures r.Page? && cursor == None && r.nextCursor == None ==> forall e ::
      && e in log.auditEvents && e.tenantId == q.tenantId
      && (q.filters.projectId == "" || (e.entityType == "Project" && e.entityId == q.filters.projectId))
      && (q.filters.actorUserId == "" || e.actorUserId == q.filters.actorUserId)
      && (q.filters.actionType == "" || e.actionType == q.filters.actionType)
      && (q.filters.executionResult == "" || e.status == Some(q.filters.executionResult))
      && (q.filters.fromDate == None || q.filters.fromDate.value <= e.createdAt)
      && (q.filters.toDate == None || e.createdAt <= q.filters.toDate.value)
      ==> e in r.auditEvents
    ensures r.Page? && DistinctIds(log.auditEvents) ==>
      forall i, j :: 0 <= i < j < |r.auditEvents| ==> var a, b := r.auditEvents[i], r.auditEvents[j];
        a.createdAt > b.createdAt || (a.createdAt == b.createdAt && Less(b.id, a.id))
    ensures r.Page? ==> |r.auditEvents| <= limit && (r.nextCursor.Some? ==> |r.auditEvents| == limit)
  {
    var parsed := ParseCursor(p, cursor);
    CursorMeans(p, cursor);
    if parsed.Invalid? {
      return InvalidAuditCursor;
    }
    var page := log.ListAuditEvents(q, if parsed.At? then Some(parsed.cursor) else None, limit + 1);
    r := Window(p, page, limit);
    PageBegins(p, q, log.auditEvents, limit, cursor, r);
    PageHolds(q, log.auditEvents, if parsed.At? then Some(parsed.cursor) else None, r.auditEvents);
    if DistinctIds(log.auditEvents) {
      PageIsOrdered(p, q, log.auditEvents, limit, cursor, r);
    }
  }

  // ----- Following the cursor to the end -----

  /** Between two requests the log grows by events that are not older than the last one shown. */
  ghost predicate GrowsAhead(before: seq<AuditEvent>, after: seq<AuditEvent>, shown: seq<AuditEvent>) {
    && |before| <= |after| && |shown| > 0 && after[|after| - |before|..] == before
    && forall e :: e in after[..|after| - |before|] ==> !Older(KeyOf(e), KeyOf(shown[|shown| - 1]))
  }

  ghost predicate Readable(events: seq<AuditEvent>) {
    DistinctIds(events) && forall e :: e in events ==> IdFits(e.id) && ValidTime(e.createdAt)
  }

  /** A client that follows `nextCursor`, against the log as it is at each request. */
  ghost predicate Follows(p: Platform, q: Query, limit: nat, logs: seq<seq<AuditEvent>>, pages: seq<Response>, cursor: Option<string>)
    requires limit >= 1
    decreases |pages|
  {
    && |logs| == |pages| > 0 && Readable(logs[0]) && pages[0] == Respond(p, q, logs[0], limit, cursor)
    && (|pages| > 1 ==>
          && pages[0].Page? && pages[0].nextCursor.Some? && GrowsAhead(logs[0], logs[1], pages[0].auditEvents)
          && Follows(p, q, limit, logs[1..], pages[1..], pages[0].nextCursor))
  }

  /** All windows one after the other. */
  function Shown(pages: seq<Response>): seq<AuditEvent> {
    if |pages| == 0 then [] else (if pages[0].Page? then pages[0].auditEvents else []) + Shown(pages[1..])
  }

  function PageCount(n: nat, limit: nat): nat
    requires limit >= 1
  {
    if n <= limit then 1 else 1 + PageCount(n - limit, limit)
  }

  /** PageCount is the ceiling of n / limit, and one page for an empty result. */
  lemma {:induction false} PageCountIsCeiling(n: nat, limit: nat)
    requires limit >= 1
    ensures var k := PageCount(n, limit);
      k >= 1 && n <= k * limit && (k > 1 ==> (k - 1) * limit < n)
  {
    if n > limit {
      PageCountIsCeiling(n - limit, limit);
      var k := PageCount(n - limit, limit);
      assert (k + 1) * limit == k * limit + limit;
      assert k > 1 ==> k * limit == (k - 1) * limit + limit;
    }
  }

  predicate Reads(p: Platform, text: Option<string>, cursor: Option<Cursor>) {
    ParseCursor(p, text) == if cursor.Some? then At(cursor.value) else Start
  }

  lemma LastPage(p: Platform, q: Query, events: seq<AuditEvent>, limit: nat, text: Option<string>, cursor: Option<Cursor>)
    requires limit >= 1 && Reads(p, text, cursor) && |Rest(q, events, cursor)| <= limit
    ensures Respond(p, q, events, limit, text) == Page(Rest(q, events, cursor), None)
  {
    WindowOf(p, Rest(q, events, cursor), limit);
  }

  /** A full page shows the first `limit` events left ... */
  lemma FullPage(p: Platform, q: Query, events: seq<AuditEvent>, limit: nat, text: Option<string>, cursor: Option<Cursor>,
                 rest: seq<AuditEvent>)
    requires limit >= 1 && Reads(p, text, cursor) && rest == Rest(q, events, cursor) && |rest| > limit
    ensures Respond(p, q, events, limit, text) == Page(rest[..limit], Some(EncodeCursor(p, KeyOf(rest[limit - 1]))))
  {
    WindowOf(p, rest, limit);
  }

  /** ... and its cursor reads back as the key of the last one. */
  lemma NextCursorReadsBack(p: Platform, q: Query, events: seq<AuditEvent>, cursor: Option<Cursor>, rest: seq<AuditEvent>, n: nat,
                            last: Cursor, text: Option<string>)
    requires Lawful(p) && Readable(events) && rest == Rest(q, events, cursor) && n < |rest| && last == KeyOf(rest[n])
    requires text == Some(EncodeCursor(p, last))
    ensures Reads(p, text, Some(last))
  {
    KeyIsReadable(q, events, cursor, n);
    EncodedReads(p, last);
  }

  lemma EncodedReads(p: Platform, c: Cursor)
    requires Lawful(p) && ValidTime(c.createdAt) && IdFits(c.id)
    ensures Reads(p, Some(EncodeCursor(p, c)), Some(c))
  {
    CursorRoundTrip(p, c);
  }

  lemma KeyIsReadable(q: Query, events: seq<AuditEvent>, cursor: Option<Cursor>, n: nat)
    requires Readable(events) && n < |Rest(q, events, cursor)|
    ensures IdFits(Rest(q, events, cursor)[n].id) && ValidTime(Rest(q, events, cursor)[n].createdAt)
  {
    RestIsDescending(q, events, cursor);
    assert Rest(q, events, cursor)[n] in Rest(q, events, cursor);
  }

  /** The pages cut `all` into windows of `limit`, each but the last announcing a next one. */
  predicate Cuts(pages: seq<Response>, all: seq<AuditEvent>, limit: nat)
    requires limit >= 1
    decreases |pages|
  {
    && |pages| > 0 && pages[0].Page?
    && (if |all| <= limit then |pages| == 1 && pages[0] == Page(all, None)
        else pages[0].auditEvents == all[..limit] && pages[0].nextCursor.Some?
             && (|pages| > 1 ==> Cuts(pages[1..], all[limit..], limit)))
  }

  lemma {:induction false} FollowingCuts(
    p: Platform, q: Query, limit: nat, logs: seq<seq<AuditEvent>>, pages: seq<Response>,
    text: Option<string>, cursor: Option<Cursor>)
    requires limit >= 1 && Lawful(p) && Follows(p, q, limit, logs, pages, text) && Reads(p, text, cursor)
    ensures Cuts(pages, Rest(q, logs[0], cursor), limit)
    decreases |pages|
  {
    var all := Rest(q, logs[0], cursor);
    if |all| <= limit {
      LastPage(p, q, logs[0], limit, text, cursor);
    } else if |pages| == 1 {
      ShowsAFullPage(p, q, logs[0], limit, text, cursor, pages[0]);
    } else {
      var last := KeyOf(all[limit - 1]);
      NextRequest(p, q, limit, logs, pages, text, cursor, all, last);
      FollowingCuts(p, q, limit, logs[1..], pages[1..], pages[0].nextCursor, Some(last));
      CutsNext(pages, all, limit);
    }
  }

  lemma CutsNext(pages: seq<Response>, all: seq<AuditEvent>, limit: nat)
    requires limit >= 1 && |pages| > 1 && |all| > limit && Cuts(pages[1..], all[limit..], limit)
    requires pages[0].Page? && pages[0].auditEvents == all[..limit] && pages[0].nextCursor.Some?
    ensures Cuts(pages, all, limit)
  {
  }

  /** From a full page to the next request: its cursor reads back, and leaves what the page left. */
  lemma NextRequest(p: Platform, q: Query, limit: nat, logs: seq<seq<AuditEvent>>, pages: seq<Response>,
                    text: Option<string>, cursor: Option<Cursor>, all: seq<AuditEvent>, last: Cursor)
    requires limit >= 1 && Lawful(p) && Follows(p, q, limit, logs, pages, text) && Reads(p, text, cursor) && |pages| > 1
    requires all == Rest(q, logs[0], cursor) && |all| > limit && last == KeyOf(all[limit - 1])
    ensures pages[0].Page? && pages[0].auditEvents == all[..limit] && pages[0].nextCursor.Some?
    ensures Follows(p, q, limit, logs[1..], pages[1..], pages[0].nextCursor) && Reads(p, pages[0].nextCursor, Some(last))
    ensures Rest(q, logs[1], Some(last)) == all[limit..] && logs[1..][0] == logs[1]
  {
    ShowsAFullPage(p, q, logs[0], limit, text, cursor, pages[0]);
    NextCursorReadsBack(p, q, logs[0], cursor, all, limit - 1, last, pages[0].nextCursor);
    NextRest(q, logs[0], logs[1], limit, cursor, pages[0].auditEvents, last);
  }

  /** What a full page leaves is what the next request has to read, in the grown log as well. */
  lemma NextRest(q: Query, before: seq<AuditEvent>, after: seq<AuditEvent>, limit: nat, cursor: Option<Cursor>,
                 shown: seq<AuditEvent>, last: Cursor)
    requires limit >= 1 && |Rest(q, before, cursor)| > limit && shown == Rest(q, before, cursor)[..limit]
    requires DistinctIds(before) && DistinctIds(after) && GrowsAhead(before, after, shown)
    requires last == KeyOf(Rest(q, before, cursor)[limit - 1])
    ensures Rest(q, after, Some(last)) == Rest(q, before, cursor)[limit..]
  {
    assert shown[limit - 1] == Rest(q, before, cursor)[limit - 1];
    RestBehind(q, before, cursor, limit - 1);
    GrowthIsInvisible(q, before, after, shown);
  }

  lemma ShowsAFullPage(p: Platform, q: Query, events: seq<AuditEvent>, limit: nat, text: Option<string>, cursor: Option<Cursor>,
                       page: Response)
    requires limit >= 1 && Reads(p, text, cursor) && |Rest(q, events, cursor)| > limit
    requires page == Respond(p, q, events, limit, text)
    ensures page.Page? && page.auditEvents == Rest(q, events, cursor)[..limit]
    ensures page.nextCursor == Some(EncodeCursor(p, KeyOf(Rest(q, events, cursor)[limit - 1])))
  {
    FullPage(p, q, events, limit, text, cursor, Rest(q, events, cursor));
  }

  lemma GrowthIsInvisible(q: Query, before: seq<AuditEvent>, after: seq<AuditEvent>, shown: seq<AuditEvent>)
    requires GrowsAhead(before, after, shown) && DistinctIds(after)
    ensures Rest(q, after, Some(KeyOf(shown[|shown| - 1]))) == Rest(q, before, Some(KeyOf(shown[|shown| - 1])))
  {
    var added := after[..|after| - |before|];
    assert after == added + before;
    NewerEventsAreInvisible(q, added, before, Some(KeyOf(shown[|shown| - 1])));
  }

  lemma {:induction false} CutsAreComplete(pages: seq<Response>, all: seq<AuditEvent>, limit: nat)
    requires limit >= 1 && Cuts(pages, all, limit)
    ensures var last := pages[|pages| - 1];
      && last.Page?
      && (last.nextCursor.None? ==> Shown(pages) == all && |pages| == PageCount(|all|, limit))
      && (last.nextCursor.Some? ==> Shown(pages) <= all && |pages| < PageCount(|all|, limit))
    decreases |pages|
  {
    if |pages| == 1 {
      assert Shown(pages[1..]) == [];
    } else {
      CutsAreComplete(pages[1..], all[limit..], limit);
      PrefixFirst(all, limit, Shown(pages[1..]));
    }
    if |all| > limit {
      PageCountStep(all, limit);
    }
  }

  /** Main result: a client that follows `nextCursor` sees every matching event exactly once,
      newest first, in ceil(n / limit) pages, however much is appended ahead of it meanwhile. */
  lemma PagingIsComplete(
    p: Platform, q: Query, limit: nat, logs: seq<seq<AuditEvent>>, pages: seq<Response>,
    text: Option<string>, cursor: Option<Cursor>)
    requires limit >= 1 && Lawful(p) && Follows(p, q, limit, logs, pages, text) && Reads(p, text, cursor)
    ensures var all, last := Rest(q, logs[0], cursor), pages[|pages| - 1];
      && last.Page?
      && (last.nextCursor.None? ==> Shown(pages) == all && |pages| == PageCount(|all|, limit))
      && (last.nextCursor.Some? ==> Shown(pages) <= all && |pages| < PageCount(|all|, limit))
  {
    FollowingCuts(p, q, limit, logs, pages, text, cursor);
    CutsAreComplete(pages, Rest(q, logs[0], cursor), limit);
  }

  lemma PageCountStep(all: seq<AuditEvent>, limit: nat)
    requires |all| > limit >= 1
    ensures PageCount(|all|, limit) == 1 + PageCount(|all[limit..]|, limit) && PageCount(|all[limit..]|, limit) >= 1
  {
  }

  lemma PrefixFirst(all: seq<AuditEvent>, n: nat, tail: seq<AuditEvent>)
    requires n <= |all| && tail <= all[n..]
    ensures all[..n] + tail <= all && (tail == all[n..] ==> all[..n] + tail == all)
  {
  }

  /** From the first page on: the pages together hold an event if and only if it is in the log as it
      was at the first request, belongs to the tenant and meets every filter that is set; strictly
      newest first, and in as few pages as `limit` allows. */
  lemma PagingFromTheStart(p: Platform, q: Query, limit: nat, logs: seq<seq<AuditEvent>>, pages: seq<Response>)
    requires limit >= 1 && Lawful(p) && Follows(p, q, limit, logs, pages, None)
    requires pages[|pages| - 1].Page? ==> pages[|pages| - 1].nextCursor.None?
    ensures forall e :: e in Shown(pages) <==>
      && e in logs[0] && e.tenantId == q.tenantId
      && (q.filters.projectId == "" || (e.entityType == "Project" && e.entityId == q.filters.projectId))
      && (q.filters.actorUserId == "" || e.actorUserId == q.filters.actorUserId)
      && (q.filters.actionType == "" || e.actionType == q.filters.actionType)
      && (q.filters.executionResult == "" || e.status == Some(q.filters.executionResult))
      && (q.filters.fromDate == None || q.filters.fromDate.value <= e.createdAt)
      && (q.filters.toDate == None || e.createdAt <= q.filters.toDate.value)
    ensures forall i, j :: 0 <= i < j < |Shown(pages)| ==> var a, b := Shown(pages)[i], Shown(pages)[j];
      a.createdAt > b.createdAt || (a.createdAt == b.createdAt && Less(b.id, a.id))
    ensures |Shown(pages)| <= |pages| * limit && (|pages| > 1 ==> (|pages| - 1) * limit < |Shown(pages)|)
  {
    PagingIsComplete(p, q, limit, logs, pages, None, None);
    var shown := Shown(pages);
    RestIsDescending(q, logs[0], None);
    PageCountIsCeiling(|shown|, limit);
  }
}

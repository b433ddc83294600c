/** Keyset pagination of the audit log: one page (internal/audit/audit.go), the store
    query behind it (internal/metadata/substores_console.go), and walks that follow the
    cursor while the log grows. */
module AuditPages {
  import opened Text
  import opened Ordering

  const DEFAULT_LIMIT := 100
  const MAX_INT64 := 0x7FFF_FFFF_FFFF_FFFF

  datatype Event = Event(id: int, time: string, actor: string, action: string,
                         repo: string, path: string, detail: string)

  datatype Query = Query(repo: string, actor: string, action: string, since: string, until: string, limit: int)

  datatype Page = Page(events: seq<Event>, next: string)

  // ---- cursors ----------------------------------------------------------------------

  function Digit(n: int): char
    requires 0 <= n < 10
  {
    ('0' as int + n) as char
  }

  function Itoa(n: nat): string {
    if n < 10 then [Digit(n)] else Itoa(n / 10) + [Digit(n % 10)]
  }

  // The value of a non-empty run of decimal digits.
  function DigitsValue(s: string): Option<nat>
    decreases |s|
  {
    if s == "" then None
    else
      var c := s[|s| - 1];
      if !('0' <= c <= '9') then None
      else if |s| == 1 then Some(c as int - '0' as int)
      else
        match DigitsValue(s[..|s| - 1])
        case None => None
        case Some(v) => Some(v * 10 + (c as int - '0' as int))
  }

  // strconv.ParseInt(s, 10, 64), reduced to the positive results a cursor may carry
  function ParsePositive(s: string): Option<int> {
    var body := if HasPrefix(s, "+") then s[1..] else s;
    match DigitsValue(body)
    case None => None
    case Some(v) => if 0 < v <= MAX_INT64 then Some(v) else None
  }

  function CursorOf(e: Event): string
    requires e.id > 0
  {
    e.time + ['|'] + Itoa(e.id)
  }

  // The keyset position a cursor names; the outer None is a malformed cursor, the inner
  // one the first page.
  function ParseCursor(cursor: string): Option<Option<(string, int)>> {
    if cursor == "" then Some(None)
    else
      var (time, id, found) := Cut(cursor, '|');
      if !found || time == "" || ParsePositive(id).None? then None
      else Some(Some((time, ParsePositive(id).value)))
  }

  lemma {:induction false} ItoaRoundTrip(n: nat)
    ensures DigitsValue(Itoa(n)) == Some(n)
    ensures Itoa(n) != "" && '0' <= Itoa(n)[0] <= '9'
  {
    if n >= 10 {
      ItoaRoundTrip(n / 10);
      assert Itoa(n)[..|Itoa(n)| - 1] == Itoa(n / 10);
    }
  }

  ghost predicate WellFormed(e: Event) {
    0 < e.id <= MAX_INT64 && e.time != "" && '|' !in e.time
  }

  lemma PlainNumber(digits: string, n: int)
    requires digits != "" && digits[0] != '+' && DigitsValue(digits) == Some(n) && 0 < n <= MAX_INT64
    ensures ParsePositive(digits) == Some(n)
  {
    assert digits[..1][0] == digits[0];
  }

  lemma CursorRoundTrip(e: Event)
    requires WellFormed(e)
    ensures CursorOf(e) != "" && ParseCursor(CursorOf(e)) == Some(Some((e.time, e.id)))
  {
    var digits := Itoa(e.id);
    ItoaRoundTrip(e.id);
    PlainNumber(digits, e.id);
    CutUnique(CursorOf(e), '|', (e.time, digits, true));
  }

  // ---- the store query -----------------------------------------------------------------

  predicate Selected(q: Query, e: Event) {
    && (q.repo == "" || e.repo == q.repo)
    && (q.actor == "" || e.actor == q.actor)
    && (q.action == "" || e.action == q.action)
    && (q.since == "" || !Less(e.time, q.since))
    && (q.until == "" || Less(e.time, q.until))
  }

  // e comes strictly after the keyset position in (time DESC, id DESC) order
  predicate PastCursor(e: Event, position: Option<(string, int)>) {
    position.None? || Less(e.time, position.value.0) || (e.time == position.value.0 && e.id < position.value.1)
  }

  predicate Newer(a: Event, b: Event) {
    Less(b.time, a.time) || (a.time == b.time && a.id > b.id)
  }

  // Every selected event past the position, newest first.
  function Rest(log: seq<Event>, q: Query, position: Option<(string, int)>): seq<Event> {
    Sort(Filter(log, e => Selected(q, e) && PastCursor(e, position)), Newer)
  }

  function Take<T>(s: seq<T>, n: int): seq<T>
    requires n >= 0
  {
    if |s| <= n then s else s[..n]
  }

  function EffectiveLimit(q: Query): int {
    if q.limit <= 0 then DEFAULT_LIMIT else q.limit
  }

  // limit + 1 in 64-bit arithmetic, or the limit itself when the sum wraps
  function Fetch(limit: int): int
    requires 0 < limit
  {
    if limit < MAX_INT64 then limit + 1 else limit
  }

  // The page answered for a cursor; None when the cursor is malformed.
  function PageFor(log: seq<Event>, q: Query, cursor: string): Option<Page>
    requires forall e :: e in log ==> WellFormed(e)
  {
    match ParseCursor(cursor)
    case None => None
    case Some(position) =>
      var limit := EffectiveLimit(q);
      var rest := Rest(log, q, position);
      var rows := Take(rest, Fetch(limit));
      if |rows| <= limit then Some(Page(rows, ""))
      else
        RestMembers(log, q, position);
        var last := rest[limit - 1];
        assert last in log && WellFormed(last);
        Some(Page(rows[..limit], CursorOf(last)))
  }

  method EventsOf(rows: seq<Event>) returns (events: seq<Event>)
    ensures events == rows
  {
    events := [];
    for i := 0 to |rows|
      invariant events == rows[..i]
    {
      var r := rows[i];
      events := events + [Event(r.id, r.time, r.actor, r.action, r.repo, r.path, r.detail)];
    }
  }

  // The logger's Query over the rows the store returns.
  method QueryPage(log: seq<Event>, q: Query, cursor: string) returns (page: Option<Page>)
    requires forall e :: e in log ==> WellFormed(e)
    ensures page == PageFor(log, q, cursor)
  {
    var limit := if q.limit <= 0 then DEFAULT_LIMIT else q.limit;
    var fetch := Fetch(limit);
    var position := ParseCursor(cursor);
    if position.None? {
      return None;
    }
    var rows := Take(Rest(log, q, position.value), fetch);
    RestMembers(log, q, position.value);
    var events := EventsOf(rows);
    if |events| > limit {
      events := events[..limit];
      return Some(Page(events, CursorOf(events[limit - 1])));
    }
    return Some(Page(events, ""));
  }

  // ---- the order ---------------------------------------------------------------------

  ghost predicate UniqueIds(log: seq<Event>) {
    forall a, b :: a in log && b in log && a.id == b.id ==> a == b
  }

  lemma NewerIsStrict()
    ensures Strict<Event>(Newer)
  {
    forall x: Event, y: Event | Newer(x, y) ensures !Newer(y, x) {
      if Less(y.time, x.time) {
        LessAsymmetric(y.time, x.time);
      } else if Less(x.time, y.time) {
        LessAsymmetric(x.time, y.time);
      }
    }
    forall x: Event, y: Event, z: Event | Newer(x, y) && Newer(y, z) ensures Newer(x, z) {
      if Less(y.time, x.time) && Less(z.time, y.time) {
        LessTransitive(z.time, y.time, x.time);
      }
    }
  }

  lemma NewerIsTotal(log: seq<Event>)
    requires UniqueIds(log)
    ensures TotalOn(log, Newer)
  {
    forall x, y | x in log && y in log && x != y ensures Newer(x, y) || Newer(y, x) {
      LessTotal(x.time, y.time);
    }
  }

  lemma RestMembers(log: seq<Event>, q: Query, position: Option<(string, int)>)
    ensures forall e :: e in Rest(log, q, position) <==> e in log && Selected(q, e) && PastCursor(e, position)
    ensures forall i :: 0 <= i < |Rest(log, q, position)| ==> Rest(log, q, position)[i] in log
  {
    var p := e => Selected(q, e) && PastCursor(e, position);
    SortKeeps(Filter(log, p), Newer);
    forall e ensures e in Rest(log, q, position) <==> e in log && p(e) {
      FilterCounts(log, p, e);
    }
    forall i | 0 <= i < |Rest(log, q, position)| ensures Rest(log, q, position)[i] in log {
      assert Rest(log, q, position)[i] in Rest(log, q, position);
    }
  }

  lemma RestOrdered(log: seq<Event>, q: Query, position: Option<(string, int)>)
    requires UniqueIds(log)
    ensures Ordered(Rest(log, q, position), Newer)
    ensures UniqueIds(Rest(log, q, position))
  {
    var p := e => Selected(q, e) && PastCursor(e, position);
    RestMembers(log, q, position);
    NewerIsStrict();
    forall e ensures e in Filter(log, p) ==> e in log {
      FilterCounts(log, p, e);
    }
    NewerIsTotal(Filter(log, p));
    SortOrders(Filter(log, p), Newer);
  }

  // ---- one page splits the rest ----------------------------------------------------------

  function At(e: Event): Option<(string, int)> {
    Some((e.time, e.id))
  }

  lemma PastIsOlder(a: Event, b: Event)
    ensures PastCursor(a, At(b)) <==> Newer(b, a)
  {
  }

  // What is left after event c of the rest is the rest after c.
  lemma RestNarrows(log: seq<Event>, q: Query, position: Option<(string, int)>, c: Event)
    requires UniqueIds(log) && PastCursor(c, position)
    ensures Rest(log, q, At(c)) == Filter(Rest(log, q, position), e => PastCursor(e, At(c)))
  {
    var p := (e: Event) => Selected(q, e) && PastCursor(e, position);
    var past := (e: Event) => PastCursor(e, At(c));
    NewerIsStrict();
    forall e ensures e in Filter(log, p) ==> e in log {
      FilterCounts(log, p, e);
    }
    NewerIsTotal(Filter(log, p));
    SortOfFilter(Filter(log, p), past, Newer);
    forall e: Event | past(e) ensures PastCursor(e, position) {
      PastIsTransitive(e, c, position);
    }
    FilterFilter(log, p, past, (e: Event) => Selected(q, e) && PastCursor(e, At(c)));
  }

  lemma PastIsTransitive(e: Event, c: Event, position: Option<(string, int)>)
    requires PastCursor(e, At(c)) && PastCursor(c, position)
    ensures PastCursor(e, position)
  {
    if position.Some? && Less(e.time, c.time) && Less(c.time, position.value.0) {
      LessTransitive(e.time, c.time, position.value.0);
    }
  }

  lemma {:induction false} FilterFilter(log: seq<Event>, p: Event -> bool, r: Event -> bool, both: Event -> bool)
    requires forall e :: both(e) <==> p(e) && r(e)
    ensures Filter(Filter(log, p), r) == Filter(log, both)
  {
    if log != [] {
      FilterFilter(log[1..], p, r, both);
      var head := if p(log[0]) then [log[0]] else [];
      FilterConcat(head, Filter(log[1..], p), r);
    }
  }

  // In an ordered list without repeats, the events past the n-th are exactly those after it.
  lemma OrderedSuffix(s: seq<Event>, n: nat)
    requires 0 < n <= |s| && Ordered(s, Newer) && UniqueIds(s)
    requires Distinct(s)
    ensures Filter(s, e => PastCursor(e, At(s[n - 1]))) == s[n..]
  {
    var past := (e: Event) => PastCursor(e, At(s[n - 1]));
    forall i | 0 <= i < |s| ensures past(s[i]) <==> n <= i {
      if i < n {
        NotPast(s, i, n);
      } else {
        Past(s, i, n);
      }
    }
    FilterSuffix(s, past, n);
  }

  lemma NotPast(s: seq<Event>, i: nat, n: nat)
    requires i < n <= |s| && Ordered(s, Newer)
    ensures !PastCursor(s[i], At(s[n - 1]))
  {
    NewerIsStrict();
    PastIsOlder(s[i], s[n - 1]);
    assert i < n - 1 ==> !Newer(s[n - 1], s[i]);
    assert !Newer(s[i], s[i]);
  }

  lemma Past(s: seq<Event>, i: nat, n: nat)
    requires 0 < n <= i < |s| && Ordered(s, Newer) && UniqueIds(s) && s[n - 1] != s[i]
    ensures PastCursor(s[i], At(s[n - 1]))
  {
    NewerIsTotal(s);
    PastIsOlder(s[i], s[n - 1]);
    assert s[i] in s && s[n - 1] in s;
    assert !Newer(s[i], s[n - 1]);
  }

  // A log: rows are well formed and no two share an id.
  ghost predicate IsLog(log: seq<Event>) {
    && (forall e :: e in log ==> WellFormed(e))
    && (forall i, j :: 0 <= i < j < |log| ==> log[i].id != log[j].id)
  }

  lemma LogIdsUnique(log: seq<Event>)
    requires IsLog(log)
    ensures UniqueIds(log)
  {
    forall a, b | a in log && b in log && a.id == b.id ensures a == b {
      var i :| 0 <= i < |log| && log[i] == a;
      var j :| 0 <= j < |log| && log[j] == b;
    }
  }

  lemma RestDistinct(log: seq<Event>, q: Query, position: Option<(string, int)>)
    requires IsLog(log)
    ensures Distinct(Rest(log, q, position))
  {
    var p := e => Selected(q, e) && PastCursor(e, position);
    SortKeeps(Filter(log, p), Newer);
    forall x ensures multiset(Rest(log, q, position))[x] <= 1 {
      FilterCounts(log, p, x);
      DistinctCounts(log, x);
    }
    CountsDistinct(Rest(log, q, position));
  }

  // Continuing after the n-th event of the rest drops its first n events.
  lemma RestAfter(log: seq<Event>, q: Query, position: Option<(string, int)>, n: nat)
    requires IsLog(log) && 0 < n <= |Rest(log, q, position)|
    ensures Rest(log, q, At(Rest(log, q, position)[n - 1])) == Rest(log, q, position)[n..]
  {
    var rest := Rest(log, q, position);
    LogIdsUnique(log);
    RestMembers(log, q, position);
    assert rest[n - 1] in rest;
    RestOrdered(log, q, position);
    RestDistinct(log, q, position);
    RestNarrows(log, q, position, rest[n - 1]);
    OrderedSuffix(rest, n);
  }

  // A page that names a next one holds limit events, and its cursor is the last of them.
  lemma PageShape(log: seq<Event>, q: Query, cursor: string)
    requires IsLog(log) && ParseCursor(cursor).Some? && EffectiveLimit(q) < MAX_INT64
    ensures var page, rest, n := PageFor(log, q, cursor).value,
                                 Rest(log, q, ParseCursor(cursor).value), EffectiveLimit(q);
            if |rest| <= n then page == Page(rest, "")
            else page.events == rest[..n] && page.next != "" && ParseCursor(page.next) == Some(At(rest[n - 1]))
  {
    var position := ParseCursor(cursor).value;
    var rest, n := Rest(log, q, position), EffectiveLimit(q);
    if |rest| > n {
      RestMembers(log, q, position);
      CursorRoundTrip(rest[n - 1]);
      var rows := Take(rest, Fetch(n));
      assert rows[..n] == rest[..n] && rows[n - 1] == rest[n - 1];
    }
  }

  lemma SplitAt(s: seq<Event>, n: nat)
    requires 0 < n <= |s|
    ensures s[..n] + s[n..] == s && |s[..n]| == n && s[..n][n - 1] == s[n - 1]
  {
  }

  /** A page followed by what its cursor still points at is what its own cursor pointed
      at; an empty cursor means nothing is left. */
  lemma PageSplitsRest(log: seq<Event>, q: Query, cursor: string)
    requires IsLog(log) && ParseCursor(cursor).Some? && EffectiveLimit(q) < MAX_INT64
    ensures var page := PageFor(log, q, cursor).value;
            && ParseCursor(page.next).Some?
            && Rest(log, q, ParseCursor(cursor).value) ==
               page.events + (if page.next == "" then [] else Rest(log, q, ParseCursor(page.next).value))
            && (page.next != "" ==> page.events != [] &&
                                    ParseCursor(page.next).value == At(page.events[|page.events| - 1]))
  {
    PageShape(log, q, cursor);
    ShapeSplits(log, q, ParseCursor(cursor).value, PageFor(log, q, cursor).value);
  }

  lemma ShapeSplits(log: seq<Event>, q: Query, position: Option<(string, int)>, page: Page)
    requires IsLog(log)
    requires var rest, n := Rest(log, q, position), EffectiveLimit(q);
             if |rest| <= n then page == Page(rest, "")
             else page.events == rest[..n] && page.next != "" && ParseCursor(page.next) == Some(At(rest[n - 1]))
    ensures ParseCursor(page.next).Some?
    ensures Rest(log, q, position) ==
            page.events + (if page.next == "" then [] else Rest(log, q, ParseCursor(page.next).value))
    ensures page.next != "" ==> page.events != [] && ParseCursor(page.next).value == At(page.events[|page.events| - 1])
  {
    var rest, n := Rest(log, q, position), EffectiveLimit(q);
    if |rest| > n {
      RestAfter(log, q, position, n);
      SplitAt(rest, n);
    }
  }

  // ---- walks ------------------------------------------------------------------------------

  function Flatten(pages: seq<Page>): seq<Event> {
    if pages == [] then [] else pages[0].events + Flatten(pages[1..])
  }

  // The log only grew, and only with events that are not past the position.
  ghost predicate GrewAhead(log: seq<Event>, log': seq<Event>, position: Option<(string, int)>) {
    log <= log' && forall e :: e in log'[|log|..] ==> !PastCursor(e, position)
  }

  // Pages read one after the other, each from the log of its moment, following the cursor
  // from the given one to the empty one; between two reads the log may grow ahead of the
  // cursor.
  ghost predicate IsWalk(logs: seq<seq<Event>>, q: Query, cursor: string, pages: seq<Page>)
    decreases |pages|
  {
    && |logs| == |pages| > 0 && IsLog(logs[0])
    && PageFor(logs[0], q, cursor) == Some(pages[0])
    && if pages[0].next == "" then |pages| == 1
       else |pages| > 1 && ParseCursor(pages[0].next).Some? &&
            GrewAhead(logs[0], logs[1], ParseCursor(pages[0].next).value) &&
            IsWalk(logs[1..], q, pages[0].next, pages[1..])
  }

  lemma GrowthAheadIsInvisible(log: seq<Event>, log': seq<Event>, q: Query, position: Option<(string, int)>)
    requires GrewAhead(log, log', position)
    ensures Rest(log', q, position) == Rest(log, q, position)
  {
    var p := e => Selected(q, e) && PastCursor(e, position);
    FilterConcat(log, log'[|log|..], p);
    FilterNone(log'[|log|..], p);
    assert log' == log + log'[|log|..];
    assert Filter(log, p) + [] == Filter(log, p);
  }

  lemma {:induction false} WalkFrom(logs: seq<seq<Event>>, q: Query, cursor: string, pages: seq<Page>)
    requires EffectiveLimit(q) < MAX_INT64 && ParseCursor(cursor).Some?
    requires IsWalk(logs, q, cursor, pages)
    ensures Flatten(pages) == Rest(logs[0], q, ParseCursor(cursor).value)
    decreases |pages|
  {
    PageSplitsRest(logs[0], q, cursor);
    var next := pages[0].next;
    if next != "" {
      WalkFrom(logs[1..], q, next, pages[1..]);
      GrowthAheadIsInvisible(logs[0], logs[1], q, ParseCursor(next).value);
    } else {
      assert Flatten(pages[1..]) == [];
    }
  }

  /** Following the cursor from the first page to the empty one lists every selected event
      of the starting log exactly once, newest first, however many newer events are
      appended on the way. */
  lemma WalkIsComplete(logs: seq<seq<Event>>, q: Query, pages: seq<Page>)
    requires EffectiveLimit(q) < MAX_INT64
    requires IsWalk(logs, q, "", pages)
    ensures Ordered(Flatten(pages), Newer)
    ensures Distinct(Flatten(pages))
    ensures forall i, j :: 0 <= i < j < |Flatten(pages)| ==> StrictlyNewer(Flatten(pages)[i], Flatten(pages)[j])
    ensures forall e :: e in Flatten(pages) <==> e in logs[0] && Asked(q, e)
  {
    WalkFrom(logs, q, "", pages);
    RestExactly(logs[0], q, None);
    LogIdsUnique(logs[0]);
    RestOrdered(logs[0], q, None);
    RestDistinct(logs[0], q, None);
  }

  /** Every walk ends: on a log that stands still, following the cursor reaches the empty
      one. */
  lemma {:induction false} WalkEnds(log: seq<Event>, q: Query, cursor: string) returns (pages: seq<Page>)
    requires IsLog(log) && EffectiveLimit(q) < MAX_INT64 && ParseCursor(cursor).Some?
    ensures IsWalk(seq(|pages|, i => log), q, cursor, pages)
    decreases |Rest(log, q, ParseCursor(cursor).value)|
  {
    PageSplitsRest(log, q, cursor);
    var page := PageFor(log, q, cursor).value;
    if page.next == "" {
      pages := [page];
    } else {
      var rest := WalkEnds(log, q, page.next);
      pages := [page] + rest;
      assert seq(|pages|, i => log)[1..] == seq(|rest|, i => log);
      assert pages[1..] == rest;
    }
  }

  // ---- pages, event by event --------------------------------------------------------------------

  // Later in time, or at the same time with the higher id.
  predicate StrictlyNewer(a: Event, b: Event) {
    Less(b.time, a.time) || (a.time == b.time && a.id > b.id)
  }

  // What the filter asks for: the repository, actor and action it names, not before since,
  // before until.
  predicate Asked(q: Query, e: Event) {
    && q.repo in {"", e.repo} && q.actor in {"", e.actor} && q.action in {"", e.action}
    && (q.since != "" ==> e.time == q.since || Less(q.since, e.time))
    && (q.until != "" ==> Less(e.time, q.until))
  }

  // e lies after the position, if there is one.
  predicate Beyond(e: Event, position: Option<(string, int)>) {
    position.Some? ==>
      Less(e.time, position.value.0) || (e.time == position.value.0 && e.id < position.value.1)
  }

  lemma AskedExactly(q: Query, e: Event)
    ensures Selected(q, e) <==> Asked(q, e)
  {
    LessTotal(e.time, q.since);
    if Less(q.since, e.time) {
      LessAsymmetric(q.since, e.time);
    }
    if e.time == q.since && Less(e.time, q.since) {
      LessAsymmetric(e.time, q.since);
    }
  }

  // The rest: the events asked for that lie beyond the position, each once, newest first.
  lemma RestExactly(log: seq<Event>, q: Query, position: Option<(string, int)>)
    requires IsLog(log)
    ensures var rest := Rest(log, q, position);
            && (forall e :: e in rest <==> e in log && Asked(q, e) && Beyond(e, position))
            && (forall i, j :: 0 <= i < j < |rest| ==> StrictlyNewer(rest[i], rest[j]))
  {
    var rest := Rest(log, q, position);
    LogIdsUnique(log);
    RestMembers(log, q, position);
    RestOrdered(log, q, position);
    RestDistinct(log, q, position);
    forall e ensures e in rest <==> e in log && Asked(q, e) && Beyond(e, position) {
      AskedExactly(q, e);
    }
    forall i, j | 0 <= i < j < |rest| ensures StrictlyNewer(rest[i], rest[j]) {
      assert rest[i] != rest[j] && !Newer(rest[j], rest[i]);
      assert rest[i] in rest && rest[j] in rest;
      NewerIsTotal(rest);
    }
  }

  // e is to be listed from the position on.
  predicate Due(log: seq<Event>, q: Query, position: Option<(string, int)>, e: Event) {
    e in log && Asked(q, e) && Beyond(e, position)
  }

  // The next cursor of a full page: the time of its last event, a bar, its id.
  ghost predicate PointsAt(next: string, last: Event) {
    last.id > 0 && next == last.time + ['|'] + Itoa(last.id)
  }

  // At most n of the events due, newest first; whatever of them is left out is older than
  // all that are there, and something is left out exactly when the page is full and names
  // the position of its last event as next.
  ghost predicate FirstPage(page: Page, log: seq<Event>, q: Query, position: Option<(string, int)>, n: nat) {
    && |page.events| <= n
    && (forall i, j :: 0 <= i < j < |page.events| ==> StrictlyNewer(page.events[i], page.events[j]))
    && (forall i :: 0 <= i < |page.events| ==> Due(log, q, position, page.events[i]))
    && (forall e :: Due(log, q, position, e) && e !in page.events ==>
          forall i :: 0 <= i < |page.events| ==> StrictlyNewer(page.events[i], e))
    && (page.next != "" <==> exists e :: Due(log, q, position, e) && e !in page.events)
    && (page.next != "" ==> |page.events| == n > 0 && PointsAt(page.next, page.events[n - 1]))
  }

  /** One page: none for a malformed cursor, else the first of the events due from it on, as
      many as the limit says, or 100 where it says nothing. */
  lemma PageExactly(log: seq<Event>, q: Query, cursor: string)
    requires IsLog(log) && q.limit < MAX_INT64
    ensures PageFor(log, q, cursor).None? <==> ParseCursor(cursor).None?
    ensures ParseCursor(cursor).Some? ==>
              FirstPage(PageFor(log, q, cursor).value, log, q, ParseCursor(cursor).value,
                        if q.limit <= 0 then 100 else q.limit)
  {
    if ParseCursor(cursor).Some? {
      var position, n := ParseCursor(cursor).value, if q.limit <= 0 then 100 else q.limit;
      var rest, page := Rest(log, q, position), PageFor(log, q, cursor).value;
      RestExactly(log, q, position);
      PageShape(log, q, cursor);
      RestDistinct(log, q, position);
      if |rest| > n {
        PageNext(log, q, cursor);
      }
      ShapeIsPage(log, q, position, rest, n, page);
    }
  }

  lemma ShapeIsPage(log: seq<Event>, q: Query, position: Option<(string, int)>, rest: seq<Event>, n: nat, page: Page)
    requires n > 0 && Distinct(rest) && forall e :: e in rest <==> Due(log, q, position, e)
    requires forall i, j :: 0 <= i < j < |rest| ==> StrictlyNewer(rest[i], rest[j])
    requires if |rest| <= n then page == Page(rest, "")
             else page.events == rest[..n] && page.next != "" && PointsAt(page.next, rest[n - 1])
    ensures FirstPage(page, log, q, position, n)
  {
    forall i | 0 <= i < |page.events| ensures Due(log, q, position, page.events[i]) {
      assert page.events[i] == rest[i] && rest[i] in rest;
    }
    if |rest| > n {
      CutAfterPage(rest, n);
      assert rest[n] in rest;
    }
  }

  lemma PageNext(log: seq<Event>, q: Query, cursor: string)
    requires IsLog(log) && EffectiveLimit(q) < MAX_INT64 && ParseCursor(cursor).Some?
    requires |Rest(log, q, ParseCursor(cursor).value)| > EffectiveLimit(q)
    ensures PointsAt(PageFor(log, q, cursor).value.next, Rest(log, q, ParseCursor(cursor).value)[EffectiveLimit(q) - 1])
  {
    var last := Rest(log, q, ParseCursor(cursor).value)[EffectiveLimit(q) - 1];
    RestMembers(log, q, ParseCursor(cursor).value);
    assert last in log && WellFormed(last);
  }

  // In a strictly ordered list what comes after the first n is older than all of those.
  lemma CutAfterPage(s: seq<Event>, n: nat)
    requires 0 < n < |s| && Distinct(s) && forall i, j :: 0 <= i < j < |s| ==> StrictlyNewer(s[i], s[j])
    ensures forall e, i :: e in s && e !in s[..n] && 0 <= i < n ==> StrictlyNewer(s[..n][i], e)
    ensures s[n] !in s[..n]
  {
    forall e, i | e in s && e !in s[..n] && 0 <= i < n ensures StrictlyNewer(s[..n][i], e) {
      var k :| 0 <= k < |s| && s[k] == e;
      assert forall l :: 0 <= l < n ==> s[l] in s[..n];
    }
  }

  // ---- cursors, character by character ------------------------------------------------------------

  function Zeros(z: nat): string {
    seq(z, _ => '0')
  }

  // The digits of n, with zeros in front or without, and nothing else, have the value n.
  lemma {:induction false} DigitsExactly(s: string, n: nat)
    ensures DigitsValue(s) == Some(n) <==> exists z: nat :: s == Zeros(z) + Itoa(n)
    decreases |s|
  {
    if DigitsValue(s) == Some(n) {
      var z := ZerosInFront(s, n);
    }
    if z: nat :| s == Zeros(z) + Itoa(n) {
      ValueOfDigits(z, n);
    }
  }

  lemma {:induction false} ZerosInFront(s: string, n: nat) returns (z: nat)
    requires DigitsValue(s) == Some(n)
    ensures s == Zeros(z) + Itoa(n)
    decreases |s|
  {
    z := 0;
    var init, c := s[..|s| - 1], s[|s| - 1];
    assert s == init + [c];
    if |s| == 1 {
      assert Zeros(0) + Itoa(n) == Itoa(n);
    } else {
      var v := DigitsValue(init).value;
      z := ZerosInFront(init, v);
      if v == 0 {
        assert Zeros(z + 1) == Zeros(z) + Itoa(0);
        z := z + 1;
      }
    }
  }

  lemma {:induction false} ValueOfDigits(z: nat, n: nat)
    ensures DigitsValue(Zeros(z) + Itoa(n)) == Some(n)
    decreases n, z
  {
    var s := Zeros(z) + Itoa(n);
    if n >= 10 {
      ValueOfDigits(z, n / 10);
      assert s[..|s| - 1] == Zeros(z) + Itoa(n / 10);
    } else if z > 0 {
      ValueOfDigits(z - 1, 0);
      assert s[..|s| - 1] == Zeros(z) && Zeros(z) == Zeros(z - 1) + Itoa(0);
    } else {
      assert s == Itoa(n);
    }
  }

  /** A cursor names time t and id n exactly when it is t, a bar, and the digits of n, with a
      plus sign or zeros in front allowed; t is not empty and holds no bar, and n is positive
      and fits in 64 bits. Any other text but the empty one is malformed. */
  lemma CursorExactly(cursor: string, t: string, n: int)
    ensures ParseCursor(cursor) == Some(Some((t, n))) <==>
            && t != "" && '|' !in t && 0 < n <= 0x7FFF_FFFF_FFFF_FFFF
            && exists z: nat :: cursor == t + ['|'] + (Zeros(z) + Itoa(n)) ||
                                cursor == t + ['|'] + (['+'] + (Zeros(z) + Itoa(n)))
    ensures ParseCursor(cursor) == Some(None) <==> cursor == ""
  {
    if ParseCursor(cursor) == Some(Some((t, n))) {
      var id := Cut(cursor, '|').1;
      PositiveExactly(id, n);
      var z: nat :| id == Zeros(z) + Itoa(n) || id == ['+'] + (Zeros(z) + Itoa(n));
      assert cursor == t + ['|'] + id;
    }
    if t != "" && '|' !in t && 0 < n <= MAX_INT64 {
      if z: nat :| cursor == t + ['|'] + (Zeros(z) + Itoa(n)) ||
                   cursor == t + ['|'] + (['+'] + (Zeros(z) + Itoa(n))) {
        var id := if cursor == t + ['|'] + (Zeros(z) + Itoa(n)) then Zeros(z) + Itoa(n)
                  else ['+'] + (Zeros(z) + Itoa(n));
        CutUnique(cursor, '|', (t, id, true));
        PositiveExactly(id, n);
      }
    }
  }

  lemma PositiveExactly(id: string, n: int)
    ensures ParsePositive(id) == Some(n) <==>
            && 0 < n <= MAX_INT64
            && exists z: nat :: id == Zeros(z) + Itoa(n) || id == ['+'] + (Zeros(z) + Itoa(n))
  {
    if 0 < n {
      DigitsExactly(id, n);
      if id != "" && id[0] == '+' {
        assert id[..1] == ['+'] && id == ['+'] + id[1..];
        DigitsExactly(id[1..], n);
        forall z: nat ensures id != Zeros(z) + Itoa(n) {
          ItoaRoundTrip(n);
          assert (Zeros(z) + Itoa(n))[0] != '+';
        }
      } else {
        assert !HasPrefix(id, "+");
      }
    }
  }
}

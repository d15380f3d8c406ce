/** Listing the audit log by pages: filters, target search, sealed cursors, and what a whole traversal
    returns while the log grows and names change between its pages. */
module AuditReads {
  import opened Wrappers
  import opened AuditLog

  const PAGE_LIMIT := 100

  /** An empty text filters nothing; `target` is the search text. */
  datatype Filters = Filters(actor: string, credential: string, category: string, action: string,
                             kind: string, id: string,
                             target: string, outcome: string, correlation: string, range: Option<(int, int)>)

  /** Digests and MACs that no two inputs share. `KeysHash` digests the sorted identities of a match set. */
  datatype FilterDigest = FilterHash(filters: Filters)
  datatype TargetDigest = KeysHash(keys: set<string>)
  datatype EpochDigest = EpochOf(key: nat)
  datatype Mac = Mac(key: nat, contents: Cursor)

  /** What a cursor binds; a traversal without target search has no target digest. */
  datatype Cursor = Cursor(version: int, generation: string, epoch: EpochDigest, filters: FilterDigest,
                           targets: Option<TargetDigest>, oldest: int, upper: int, before: int)

  datatype Token = Token(contents: Cursor, mac: Mac)

  datatype Query = Query(limit: int, filters: Filters, generation: Option<string>, cursor: Option<Token>)

  /** The database as one read transaction sees it; `named` are the targets whose current name matches
      the search text. */
  datatype Snapshot = Snapshot(generation: string, log: Log, named: set<Target>)

  datatype Page = Page(items: seq<Event>, next: Option<Token>)

  datatype Failure = BadInput | BadState | BadCursor | StaleCursor | HistoryReplaced

  // ---- cursors ----------------------------------------------------------------------------

  function Encode(key: nat, c: Cursor): Token {
    Token(c, Mac(key, c))
  }

  predicate InRange(c: Cursor) {
    c.version == 1 && 1 <= c.oldest <= c.upper && c.oldest < c.before <= c.upper
  }

  function Decode(key: nat, t: Token): Result<Cursor, Failure> {
    if !InRange(t.contents) then Err(BadCursor)
    else if t.contents.epoch != EpochOf(key) then Err(StaleCursor)
    else if t.mac != Mac(key, t.contents) then Err(BadCursor)
    else Ok(t.contents)
  }

  /** The decoder accepts exactly the encodings, under its key, of cursors in range and of its epoch. */
  lemma DecodeInvertsEncode(key: nat, t: Token, c: Cursor)
    ensures Decode(key, t) == Ok(c) <==> t == Encode(key, c) && InRange(c) && c.epoch == EpochOf(key)
  {
  }

  /** What is wrong with a cursor: out of range, of another process, or not sealed with the key. */
  lemma DecodeErrors(key: nat, t: Token)
    ensures var c := t.contents;
      var inRange := c.version == 1 && c.oldest >= 1 && c.upper >= c.oldest && c.before > c.oldest
          && c.before <= c.upper;
      && (Decode(key, t) == Err(StaleCursor) <==> inRange && c.epoch != EpochOf(key))
      && (Decode(key, t) == Err(BadCursor) <==> !inRange || (c.epoch == EpochOf(key) && t.mac != Mac(key, c)))
      && (Decode(key, t).Ok? <==> inRange && c.epoch == EpochOf(key) && t.mac == Mac(key, c))
  {
  }

  // ---- selection --------------------------------------------------------------------------

  predicate Passes(filter: string, value: string) {
    filter == "" || filter == value
  }

  /** The conditions `listStatement` puts on an event's columns. */
  predicate Matches(e: Event, f: Filters) {
    && Passes(f.actor, e.actor) && Passes(f.category, e.category) && Passes(f.action, e.action)
    && Passes(f.kind, e.target.kind) && Passes(f.id, e.target.id) && Passes(f.outcome, e.outcome)
    && Passes(f.correlation, e.correlation)
    && (f.credential == "" || e.credential == f.credential || e.initiator == f.credential)
    && (f.range.Some? ==> f.range.value.0 <= e.timestamp < f.range.value.1)
  }

  const NO_FILTERS := Filters("", "", "", "", "", "", "", "", "", None)

  /** Without filters everything matches, and each filter, where it is set, narrows by its own column and
      nothing else; the credential filter by the actor's or the initiator's, the range by its half-open
      interval. */
  lemma EachFilterNarrows(e: Event, f: Filters)
    ensures Matches(e, NO_FILTERS)
    ensures Matches(e, f) <==> Matches(e, f.(actor := "")) && (f.actor != "" ==> e.actor == f.actor)
    ensures Matches(e, f) <==> Matches(e, f.(category := "")) && (f.category != "" ==> e.category == f.category)
    ensures Matches(e, f) <==> Matches(e, f.(action := "")) && (f.action != "" ==> e.action == f.action)
    ensures Matches(e, f) <==> Matches(e, f.(kind := "")) && (f.kind != "" ==> e.target.kind == f.kind)
    ensures Matches(e, f) <==> Matches(e, f.(id := "")) && (f.id != "" ==> e.target.id == f.id)
    ensures Matches(e, f) <==> Matches(e, f.(outcome := "")) && (f.outcome != "" ==> e.outcome == f.outcome)
    ensures Matches(e, f) <==>
        Matches(e, f.(correlation := "")) && (f.correlation != "" ==> e.correlation == f.correlation)
    ensures Matches(e, f) <==>
              Matches(e, f.(credential := "")) && (f.credential != "" ==> f.credential in {e.credential, e.initiator})
    ensures Matches(e, f) <==>
              Matches(e, f.(range := None)) && (f.range != None ==> f.range.value.0 <= e.timestamp < f.range.value.1)
    ensures Matches(e, f) <==> Matches(e, f.(target := ""))
  {
  }

  function Key(t: Target): string {
    t.kind + "/" + t.id
  }

  predicate Contains(text: string, part: string) {
    exists i :: 0 <= i <= |text| && part <= text[i..]
  }

  /** A text contains a part exactly if it is that part with something before and after. */
  lemma ContainsMeans(text: string, part: string)
    ensures Contains(text, part) <==> exists i, j :: 0 <= i <= j <= |text| && text[i..j] == part
  {
    if i :| 0 <= i <= |text| && part <= text[i..] {
      assert text[i..i + |part|] == part;
    }
    if i, j :| 0 <= i <= j <= |text| && text[i..j] == part {
      assert part <= text[i..];
    }
  }

  /** Distinct targets of the events a traversal may return. */
  function Targets(events: seq<Event>, upper: int, f: Filters): set<Target> {
    set i | 0 <= i < |events| && events[i].sequence <= upper && Matches(events[i], f) :: events[i].target
  }

  /** `searchTargets`: identities of the targets that match by identity or by current name. */
  function MatchedKeys(events: seq<Event>, upper: int, f: Filters, named: set<Target>): set<string> {
    set t | t in Targets(events, upper, f) && (Contains(t.id, f.target) || t in named) :: Key(t)
  }

  /** What a traversal as a whole asks for: a simple filter over one snapshot. */
  datatype Selection = Selection(upper: int, filters: Filters, keys: set<string>)

  predicate Selected(e: Event, sel: Selection) {
    e.sequence <= sel.upper && Matches(e, sel.filters) && (sel.filters.target != "" ==> Key(e.target) in sel.keys)
  }

  predicate Below(e: Event, before: int) {
    before > 0 ==> e.sequence < before
  }

  /** The rows among the first `n` events, newest first. */
  function Rows(events: seq<Event>, n: nat, sel: Selection, before: int): seq<Event>
    requires n <= |events|
  {
    if n == 0 then []
    else
      var newest := if Selected(events[n - 1], sel) && Below(events[n - 1], before) then [events[n - 1]] else [];
      newest + Rows(events, n - 1, sel, before)
  }

  // ---- listing ----------------------------------------------------------------------------

  function Oldest(log: Log): int {
    if log.events == [] then 0 else log.events[0].sequence
  }

  function Newest(log: Log): int {
    if log.events == [] then 0 else log.events[|log.events| - 1].sequence
  }

  /** The binding a first page starts from. */
  function Fresh(key: nat, s: Snapshot, f: Filters): Cursor {
    Cursor(1, s.generation, EpochOf(key), FilterHash(f), None, Oldest(s.log), Newest(s.log), 0)
  }

  /** The binding of a query before the database is read. */
  function Bound(key: nat, q: Query): Result<Option<Cursor>, Failure> {
    if q.cursor.None? then Ok(None)
    else match Decode(key, q.cursor.value) {
      case Err(e) => Err(e)
      case Ok(c) => if c.filters != FilterHash(q.filters) then Err(BadCursor) else Ok(Some(c))
    }
  }

  /** The page cut from the rows, and the cursor that continues it. */
  function Cut(key: nat, b: Cursor, rows: seq<Event>, limit: int): Page
    requires limit >= 1
  {
    if |rows| <= limit then Page(rows, None)
    else Page(rows[..limit], Some(Encode(key, b.(before := rows[limit - 1].sequence))))
  }

  /** A damaged row, up to the one past the limit, spoils the page. */
  function Collect(key: nat, b: Cursor, rows: seq<Event>, limit: int): Result<Page, Failure>
    requires limit >= 1
  {
    if forall i :: 0 <= i < |rows| && i <= limit ==> Scans(rows[i]) then Ok(Cut(key, b, rows, limit)) else Err(BadState)
  }

  /** The page a binding gives on a snapshot. */
  function PageOf(key: nat, s: Snapshot, q: Query, b: Cursor, resumed: bool): Result<Page, Failure>
    requires q.limit >= 1
  {
    var events, f := s.log.events, q.filters;
    if f.target != "" then
      if |Targets(events, b.upper, f)| > RETENTION then Err(BadState)
      else
        var keys := MatchedKeys(events, b.upper, f, s.named);
        if resumed && b.targets != Some(KeysHash(keys)) then Err(StaleCursor)
        else Collect(key, b.(targets := Some(KeysHash(keys))),
            Rows(events, |events|, Selection(b.upper, f, keys), b.before), q.limit)
    else Collect(key, b, Rows(events, |events|, Selection(b.upper, f, {}), b.before), q.limit)
  }

  function List(key: nat, s: Snapshot, q: Query): Result<Page, Failure> {
    if q.limit < 1 || q.limit > PAGE_LIMIT then Err(BadInput)
    else match Bound(key, q) {
      case Err(e) => Err(e)
      case Ok(b) =>
        if !ReadableHistory(s.log) then Err(BadState)
        else if (q.generation.Some? && q.generation.value != s.generation)
            || (b.Some? && b.value.generation != s.generation) then Err(HistoryReplaced)
        else if b.Some? && Oldest(s.log) != b.value.oldest then Err(StaleCursor)
        else PageOf(key, s, q, if b.Some? then b.value else Fresh(key, s, q.filters), b.Some?)
    }
  }

  /** The loop over the rows, which stops at the first one past the limit. */
  method CollectRows(key: nat, b: Cursor, rows: seq<Event>, limit: int) returns (page: Result<Page, Failure>)
    requires limit >= 1
    ensures page == Collect(key, b, rows, limit)
  {
    var items: seq<Event> := [];
    for i := 0 to |rows|
      invariant i <= limit && items == rows[..i] && forall k :: 0 <= k < i ==> Scans(rows[k])
    {
      if !Scans(rows[i]) {
        return Err(BadState);
      }
      if |items| == limit {
        return Ok(Page(items, Some(Encode(key, b.(before := items[|items| - 1].sequence)))));
      }
      items := items + [rows[i]];
    }
    assert rows[..|rows|] == rows;
    return Ok(Page(items, None));
  }

  // ---- rows of a valid log ----------------------------------------------------------------

  ghost predicate Ascending(events: seq<Event>) {
    forall i, j :: 0 <= i < j < |events| ==> events[i].sequence < events[j].sequence
  }

  ghost predicate Descending(events: seq<Event>) {
    forall i, j :: 0 <= i < j < |events| ==> events[i].sequence > events[j].sequence
  }

  lemma ValidAscends(log: Log)
    requires Valid(log)
    ensures Ascending(log.events)
        && (forall i :: 0 <= i < |log.events| ==> 1 <= Oldest(log) <= log.events[i].sequence <= Newest(log))
    ensures Newest(log) == log.issued
  {
    var k := |log.events|;
    if k > 0 {
      assert log.events[0].sequence == log.issued - k + 1 && log.events[k - 1].sequence == log.issued;
    }
    assert forall i :: 0 <= i < k ==> log.events[i].sequence == log.issued - k + 1 + i;
  }

  /** Rows come in strictly descending order, and are exactly the events that qualify. */
  lemma {:induction false} RowsAre(events: seq<Event>, n: nat, sel: Selection, before: int)
    requires n <= |events| && Ascending(events)
    ensures Descending(Rows(events, n, sel, before))
    ensures forall e :: e in Rows(events, n, sel, before) <==> e in events[..n] && Selected(e, sel) && Below(e, before)
  {
    if n > 0 {
      RowsAre(events, n - 1, sel, before);
      assert events[..n] == events[..n - 1] + [events[n - 1]];
      var rest := Rows(events, n - 1, sel, before);
      forall e | e in rest
        ensures e.sequence < events[n - 1].sequence
      {
        var i :| 0 <= i < n - 1 && events[i] == e;
      }
    }
  }

  /** Where a row comes from: what follows it are the rows among the events before it. */
  lemma {:induction false} RowAt(events: seq<Event>, n: nat, sel: Selection, before: int, k: nat) returns (p: nat)
    requires n <= |events| && k < |Rows(events, n, sel, before)|
    ensures p < n && Rows(events, n, sel, before)[k] == events[p] && Below(events[p], before)
    ensures Rows(events, n, sel, before)[k + 1..] == Rows(events, p, sel, before)
  {
    if !Selected(events[n - 1], sel) || !Below(events[n - 1], before) {
      p := RowAt(events, n - 1, sel, before, k);
    } else if k == 0 {
      p := n - 1;
    } else {
      p := RowAt(events, n - 1, sel, before, k - 1);
      Shift(events[n - 1], Rows(events, n - 1, sel, before), k);
    }
  }

  lemma Shift(e: Event, rest: seq<Event>, k: nat)
    requires 0 < k <= |rest|
    ensures ([e] + rest)[k] == rest[k - 1] && ([e] + rest)[k + 1..] == rest[k..]
  {
  }

  /** Events at or above a bound give no rows below it. */
  lemma {:induction false} RowsAbove(events: seq<Event>, n: nat, sel: Selection, p: nat)
    requires p <= n <= |events| && Ascending(events) && p < |events| && events[p].sequence > 0
    ensures Rows(events, n, sel, events[p].sequence) == Rows(events, p, sel, events[p].sequence)
  {
    if p < n {
      RowsAbove(events, n - 1, sel, p);
      assert events[n - 1].sequence >= events[p].sequence;
    }
  }

  /** A bound above all the events considered changes nothing. */
  lemma {:induction false} RowsBelow(events: seq<Event>, n: nat, sel: Selection, before: int, bound: int)
    requires n <= |events| && forall i :: 0 <= i < n ==> events[i].sequence < bound
    requires before > 0 ==> bound <= before
    ensures Rows(events, n, sel, bound) == Rows(events, n, sel, before)
  {
    if n > 0 {
      RowsBelow(events, n - 1, sel, before, bound);
    }
  }

  /** Asking below a row gives the rows after it. */
  lemma RowsResume(events: seq<Event>, sel: Selection, before: int, k: nat)
    requires Ascending(events) && k < |Rows(events, |events|, sel, before)|
    requires forall i :: 0 <= i < |events| ==> events[i].sequence >= 1
    ensures var rows := Rows(events, |events|, sel, before);
            Rows(events, |events|, sel, rows[k].sequence) == rows[k + 1..]
  {
    var p := RowAt(events, |events|, sel, before, k);
    RowsAbove(events, |events|, sel, p);
    RowsBelow(events, p, sel, before, events[p].sequence);
  }

  /** Events newer than the selection's bound give no rows. */
  lemma {:induction false} RowsIgnoreNewer(events: seq<Event>, n: nat, m: nat, sel: Selection, before: int)
    requires m <= n <= |events| && forall i :: m <= i < n ==> events[i].sequence > sel.upper
    ensures Rows(events, n, sel, before) == Rows(events, m, sel, before)
  {
    if m < n {
      RowsIgnoreNewer(events, n - 1, m, sel, before);
    }
  }

  lemma {:induction false} RowsOfPrefix(events: seq<Event>, more: seq<Event>, n: nat, sel: Selection, before: int)
    requires n <= |events| <= |more| && forall i :: 0 <= i < n ==> more[i] == events[i]
    ensures Rows(more, n, sel, before) == Rows(events, n, sel, before)
  {
    if n > 0 {
      RowsOfPrefix(events, more, n - 1, sel, before);
    }
  }

  // ---- cursors that lists issue -----------------------------------------------------------

  lemma {:induction false} TargetsFit(events: seq<Event>, upper: int, f: Filters)
    ensures |Targets(events, upper, f)| <= |events|
  {
    if events != [] {
      var k := |events| - 1;
      TargetsFit(events[..k], upper, f);
      var fewer := Targets(events[..k], upper, f);
      forall t | t in Targets(events, upper, f)
        ensures t in fewer + {events[k].target}
      {
        var i :| 0 <= i < |events| && events[i].sequence <= upper && Matches(events[i], f) && events[i].target == t;
        assert i < k ==> events[..k][i] == events[i];
      }
      assert Targets(events, upper, f) <= fewer + {events[k].target};
      SubsetFits(Targets(events, upper, f), fewer + {events[k].target});
    }
  }

  lemma SubsetFits(a: set<Target>, b: set<Target>)
    requires a <= b
    ensures |a| <= |b|
  {
    assert b == a + (b - a);
    assert |a + (b - a)| == |a| + |b - a|;
  }

  /** A page that continues was cut above another row, so its bound is between the oldest row and the
      upper one. */
  lemma CutInRange(key: nat, b: Cursor, log: Log, sel: Selection, limit: int)
    requires Valid(log) && limit >= 1 && b.version == 1 && b.oldest == Oldest(log) && b.upper == sel.upper
    requires b.epoch == EpochOf(key)
    ensures var page := Cut(key, b, Rows(log.events, |log.events|, sel, b.before), limit);
            page.next.Some? ==> Decode(key, page.next.value) == Ok(b.(before := page.items[limit - 1].sequence))
  {
    var rows := Rows(log.events, |log.events|, sel, b.before);
    ValidAscends(log);
    RowsAre(log.events, |log.events|, sel, b.before);
    if |rows| > limit {
      assert rows[limit - 1] in rows && rows[limit] in rows;
      assert log.events[..|log.events|] == log.events;
      assert rows[limit].sequence >= b.oldest >= 1;
      assert rows[limit - 1].sequence > rows[limit].sequence;
    }
  }

  /** Every cursor issued over a valid log is accepted by the decoder, and gives back what was bound. */
  lemma IssuedCursorsDecode(key: nat, s: Snapshot, q: Query)
    requires Valid(s.log) && List(key, s, q).Ok? && List(key, s, q).value.next.Some?
    ensures Decode(key, List(key, s, q).value.next.value) == Ok(List(key, s, q).value.next.value.contents)
  {
    var b := if q.cursor.Some? then Decode(key, q.cursor.value).value else Fresh(key, s, q.filters);
    var keys := if q.filters.target != "" then MatchedKeys(s.log.events, b.upper, q.filters, s.named) else {};
    var bound := if q.filters.target != "" then b.(targets := Some(KeysHash(keys))) else b;
    CutInRange(key, bound, s.log, Selection(b.upper, q.filters, keys), q.limit);
  }

  // ---- the log between two pages ----------------------------------------------------------

  /** The second log has everything of the first and otherwise only newer events. */
  ghost predicate Extends(a: Log, b: Log) {
    && |a.events| <= |b.events|
    && (forall i :: 0 <= i < |a.events| ==> b.events[i] == a.events[i])
    && (forall i :: |a.events| <= i < |b.events| ==> b.events[i].sequence > Newest(a))
  }

  lemma SameStartExtends(a: Log, b: Log, inputs: seq<Event>, m: nat, n: nat)
    requires m <= n <= |inputs| && Holds(a, inputs, m) && Holds(b, inputs, n) && m - |a.events| == n - |b.events|
    requires Newest(a) == m
    ensures Extends(a, b)
  {
    forall i | 0 <= i < |a.events|
      ensures b.events[i] == a.events[i]
    {
      assert a.events[i] == Recorded(inputs, m - |a.events| + 1 + i);
      assert b.events[i] == Recorded(inputs, n - |b.events| + 1 + i);
    }
    forall i | |a.events| <= i < |b.events|
      ensures b.events[i].sequence > Newest(a)
    {
      assert b.events[i] == Recorded(inputs, n - |b.events| + 1 + i);
    }
  }

  /** While the oldest retained event stays, appending only adds newer ones. */
  lemma SameOldestExtends(logs: seq<Log>, inputs: seq<Event>, m: nat, n: nat)
    requires Run(logs, inputs) && m <= n < |logs| && Oldest(logs[m]) == Oldest(logs[n])
    ensures Extends(logs[m], logs[n])
  {
    RunIsValid(logs, inputs, m);
    RunIsValid(logs, inputs, n);
    StartOf(logs[m]);
    StartOf(logs[n]);
    SameStartExtends(logs[m], logs[n], inputs, m, n);
  }

  lemma StartOf(log: Log)
    requires Valid(log)
    ensures Newest(log) == log.issued
    ensures Oldest(log) == if log.events == [] then 0 else log.issued - |log.events| + 1
  {
    ValidAscends(log);
  }

  /** A selection bounded by the first log's newest event means the same on a log that extends it. */
  lemma ExtendedRows(a: Log, b: Log, sel: Selection, before: int)
    requires Extends(a, b) && sel.upper == Newest(a)
    ensures Rows(b.events, |b.events|, sel, before) == Rows(a.events, |a.events|, sel, before)
  {
    RowsIgnoreNewer(b.events, |b.events|, |a.events|, sel, before);
    RowsOfPrefix(a.events, b.events, |a.events|, sel, before);
  }

  // ---- traversals -------------------------------------------------------------------------

  /** The matched identities and the selection that a first page fixes for its traversal. */
  function FirstKeys(s: Snapshot, f: Filters): set<string> {
    if f.target != "" then MatchedKeys(s.log.events, Newest(s.log), f, s.named) else {}
  }

  function FirstSelection(s: Snapshot, f: Filters): Selection {
    Selection(Newest(s.log), f, FirstKeys(s, f))
  }

  /** The binding all its cursors share, but for where they resume. */
  function Binding(key: nat, s: Snapshot, f: Filters, before: int): Cursor {
    Fresh(key, s, f).(targets := if f.target != "" then Some(KeysHash(FirstKeys(s, f))) else None, before := before)
  }

  /** The rows of the first snapshot that are left below a bound. */
  function Left(s: Snapshot, f: Filters, before: int): seq<Event> {
    Rows(s.log.events, |s.log.events|, FirstSelection(s, f), before)
  }

  lemma FirstPage(key: nat, s: Snapshot, q: Query)
    requires q.cursor.None? && List(key, s, q).Ok?
    ensures CutFrom(key, s, q.filters, 0, q.limit, List(key, s, q).value)
  {
  }

  /** A continuing page that succeeds is cut from the first snapshot's rows. */
  lemma NextPage(key: nat, first: Snapshot, f: Filters, before: int, s: Snapshot, q: Query)
    requires q.cursor == Some(Encode(key, Binding(key, first, f, before))) && List(key, s, q).Ok?
    requires Continues(first, s)
    ensures q.filters == f
    ensures List(key, s, q).value == Cut(key, Binding(key, first, f, before), Left(first, f, before), q.limit)
  {
    DecodeInvertsEncode(key, q.cursor.value, Binding(key, first, f, before));
    assert Extends(first.log, s.log);
    ExtendedRows(first.log, s.log, FirstSelection(first, f), before);
    if f.target != "" {
      assert MatchedKeys(s.log.events, Newest(first.log), f, s.named) == FirstKeys(first, f);
    }
  }

  lemma RowsScan(log: Log, sel: Selection, before: int)
    requires Valid(log)
    ensures forall i :: 0 <= i < |Rows(log.events, |log.events|, sel, before)| ==>
        Scans(Rows(log.events, |log.events|, sel, before)[i])
  {
    var rows := Rows(log.events, |log.events|, sel, before);
    ValidAscends(log);
    RowsAre(log.events, |log.events|, sel, before);
    forall i | 0 <= i < |rows|
      ensures Scans(rows[i])
    {
      assert rows[i] in rows;
      assert log.events[..|log.events|] == log.events;
    }
  }

  /** The oldest event is still there and the matching targets are those of the first page. */
  ghost predicate Unchanged(first: Snapshot, f: Filters, s: Snapshot) {
    && Oldest(s.log) == Oldest(first.log)
    && (f.target != "" ==> MatchedKeys(s.log.events, Newest(first.log), f, s.named) == FirstKeys(first, f))
  }

  predicate GoodLimit(q: Query) {
    1 <= q.limit <= 100
  }

  /** The query names another generation than the one there is. */
  predicate OtherGeneration(q: Query, s: Snapshot) {
    q.generation != None && q.generation != Some(s.generation)
  }

  /** What a continuing query gets, over a valid log: an error of its own for a bad limit, for filters that
      are not the cursor's and for a replaced history; stale if the oldest event was pruned or the set of
      matching targets is not the first page's; and otherwise a page. */
  lemma StaleOrNext(key: nat, first: Snapshot, f: Filters, before: int, s: Snapshot, q: Query)
    requires Valid(s.log) && InRange(Binding(key, first, f, before))
    requires q.cursor == Some(Encode(key, Binding(key, first, f, before)))
    ensures var r, replaced := List(key, s, q), OtherGeneration(q, s) || first.generation != s.generation;
      && (r == Err(BadInput) <==> !GoodLimit(q))
      && (r == Err(BadCursor) <==> GoodLimit(q) && q.filters != f)
      && (r == Err(HistoryReplaced) <==> GoodLimit(q) && q.filters == f && replaced)
      && (r == Err(StaleCursor) <==> GoodLimit(q) && q.filters == f && !replaced && !Unchanged(first, f, s))
      && (r.Ok? <==> GoodLimit(q) && q.filters == f && !replaced && Unchanged(first, f, s))
  {
    var keys := if f.target != "" then MatchedKeys(s.log.events, Newest(first.log), f, s.named) else {};
    RowsScan(s.log, Selection(Newest(first.log), f, keys), before);
    TargetsFit(s.log.events, Newest(first.log), f);
    HistoryReadable(s.log);
    DecodeInvertsEncode(key, Encode(key, Binding(key, first, f, before)), Binding(key, first, f, before));
  }

  /** A first query over a valid log fails only for a bad limit or another generation. */
  lemma FirstPageDecides(key: nat, s: Snapshot, q: Query)
    requires Valid(s.log) && q.cursor == None
    ensures var r := List(key, s, q);
      && (r == Err(BadInput) <==> !GoodLimit(q))
      && (r == Err(HistoryReplaced) <==> GoodLimit(q) && OtherGeneration(q, s))
      && (r.Ok? <==> GoodLimit(q) && !OtherGeneration(q, s))
  {
    RowsScan(s.log, FirstSelection(s, q.filters), 0);
    TargetsFit(s.log.events, Newest(s.log), q.filters);
    HistoryReadable(s.log);
  }

  /** A page is never larger than asked for, and smaller only if it is the last. */
  lemma PageSize(key: nat, s: Snapshot, q: Query)
    requires List(key, s, q).Ok?
    ensures var page := List(key, s, q).value;
      |page.items| <= q.limit && (page.next != None ==> |page.items| == q.limit)
  {
  }

  predicate Follows(page: Page, q: Query) {
    page.next.Some? && q.cursor == page.next
  }

  /** Pages from the i-th on, asked for one after the other, each with the cursor of the one before,
      down to a page without one. Limits may vary. */
  ghost predicate Traverses(key: nat, snaps: seq<Snapshot>, queries: seq<Query>, pages: seq<Page>, i: nat)
    requires i < |pages| == |queries| == |snaps|
    decreases |pages| - i
  {
    && List(key, snaps[i], queries[i]) == Ok(pages[i])
    && if i == |pages| - 1 then pages[i].next.None?
      else Follows(pages[i], queries[i + 1]) && Traverses(key, snaps, queries, pages, i + 1)
  }

  ghost predicate Traversal(key: nat, snaps: seq<Snapshot>, queries: seq<Query>, pages: seq<Page>) {
    0 < |pages| == |queries| == |snaps| && queries[0].cursor.None? && Traverses(key, snaps, queries, pages, 0)
  }

  /** The snapshots are states, in order, of one log that grows by appends; one whose generation differs
      may be anything. */
  ghost predicate Observes(logs: seq<Log>, inputs: seq<Event>, snaps: seq<Snapshot>, at: seq<nat>) {
    && Run(logs, inputs) && |at| == |snaps| > 0
    && (forall i, j :: 0 <= i <= j < |at| ==> at[i] <= at[j] < |logs|)
    && (forall i :: 0 <= i < |snaps| && snaps[i].generation == snaps[0].generation ==> snaps[i].log == logs[at[i]])
  }

  lemma ObservedExtends(logs: seq<Log>, inputs: seq<Event>, snaps: seq<Snapshot>, at: seq<nat>, i: nat)
    requires Observes(logs, inputs, snaps, at) && i < |snaps|
    ensures Continues(snaps[0], snaps[i])
  {
    if snaps[i].generation == snaps[0].generation && Oldest(snaps[i].log) == Oldest(snaps[0].log) {
      SameOldestExtends(logs, inputs, at[0], at[i]);
    }
  }

  /** The page is the one cut from what the first snapshot has left. */
  predicate CutFrom(key: nat, first: Snapshot, f: Filters, before: int, limit: int, page: Page) {
    limit >= 1 && page == Cut(key, Binding(key, first, f, before), Left(first, f, before), limit)
  }

  /** The later snapshot extends the first unless it shows that it does not. */
  ghost predicate Continues(first: Snapshot, s: Snapshot) {
    s.generation == first.generation && Oldest(s.log) == Oldest(first.log) ==> Extends(first.log, s.log)
  }

  lemma PageStep(key: nat, first: Snapshot, f: Filters, before: int, limit: int, page: Page, s: Snapshot, q: Query,
      next: Page)
    requires CutFrom(key, first, f, before, limit, page) && Follows(page, q)
    requires List(key, s, q) == Ok(next) && Continues(first, s)
    ensures CutFrom(key, first, f, page.next.value.contents.before, q.limit, next)
  {
    NextPage(key, first, f, page.next.value.contents.before, s, q);
  }

  /** The items of the pages from the i-th on. */
  function Items(pages: seq<Page>, i: nat): seq<Event>
    requires i <= |pages|
    decreases |pages| - i
  {
    if i == |pages| then [] else pages[i].items + Items(pages, i + 1)
  }

  lemma CutLeaves(key: nat, s: Snapshot, f: Filters, before: int, limit: int, page: Page)
    requires Valid(s.log) && CutFrom(key, s, f, before, limit, page)
    ensures page.next.None? ==> page.items == Left(s, f, before)
    ensures page.next.Some? ==> page.items + Left(s, f, page.next.value.contents.before) == Left(s, f, before)
  {
    var rows := Left(s, f, before);
    ValidAscends(s.log);
    if |rows| > limit {
      RowsResume(s.log.events, FirstSelection(s, f), before, limit - 1);
      assert rows[..limit] + rows[limit..] == rows;
    }
  }

  lemma {:induction false} PagesFrom(key: nat, snaps: seq<Snapshot>, queries: seq<Query>, pages: seq<Page>,
      f: Filters, i: nat, before: int)
    requires i < |pages| == |queries| == |snaps| && Traverses(key, snaps, queries, pages, i)
    requires forall k :: 0 <= k < |snaps| ==> Continues(snaps[0], snaps[k])
    requires Valid(snaps[0].log) && CutFrom(key, snaps[0], f, before, queries[i].limit, pages[i])
    ensures Items(pages, i) == Left(snaps[0], f, before)
    decreases |pages| - i
  {
    var page := pages[i];
    CutLeaves(key, snaps[0], f, before, queries[i].limit, page);
    if i < |pages| - 1 {
      PageStep(key, snaps[0], f, before, queries[i].limit, page, snaps[i + 1], queries[i + 1], pages[i + 1]);
      PagesFrom(key, snaps, queries, pages, f, i + 1, page.next.value.contents.before);
    } else {
      assert Items(pages, i + 1) == [];
    }
  }

  /** A traversal that ends without error returns, page after page in strictly descending sequence,
      exactly the events of the first snapshot that match, whatever was appended and renamed
      meanwhile. */
  lemma TraversalIsSnapshot(key: nat, logs: seq<Log>, inputs: seq<Event>, at: seq<nat>, snaps: seq<Snapshot>,
      queries: seq<Query>, pages: seq<Page>)
    requires Observes(logs, inputs, snaps, at) && Traversal(key, snaps, queries, pages)
    ensures Descending(Items(pages, 0))
    ensures forall e :: e in Items(pages, 0) <==>
        e in snaps[0].log.events && Selected(e, FirstSelection(snaps[0], queries[0].filters))
  {
    RunIsValid(logs, inputs, at[0]);
    assert snaps[0].log == logs[at[0]];
    forall k | 0 <= k < |snaps|
      ensures Continues(snaps[0], snaps[k])
    {
      ObservedExtends(logs, inputs, snaps, at, k);
    }
    FirstPage(key, snaps[0], queries[0]);
    PagesFrom(key, snaps, queries, pages, queries[0].filters, 0, 0);
    ValidAscends(snaps[0].log);
    var events := snaps[0].log.events;
    RowsAre(events, |events|, FirstSelection(snaps[0], queries[0].filters), 0);
    assert events[..|events|] == events;
  }

  // ---- searching by identity key ----------------------------------------------------------

  /** Kinds hold no slash, so an event is found by key exactly when its own target matched. */
  lemma {:induction false} KeyIsTarget(a: Target, b: Target)
    requires '/' !in a.kind && '/' !in b.kind && Key(a) == Key(b)
    ensures a == b
  {
    KindIsNoShorter(a, b);
    KindIsNoShorter(b, a);
    assert a.kind == Key(a)[..|a.kind|] && b.kind == Key(b)[..|b.kind|];
    assert a.id == Key(a)[|a.kind| + 1..] && b.id == Key(b)[|b.kind| + 1..];
  }

  lemma KindIsNoShorter(a: Target, b: Target)
    requires '/' !in b.kind && Key(a) == Key(b)
    ensures |a.kind| >= |b.kind|
  {
    assert forall i :: 0 <= i < |b.kind| ==> Key(b)[i] == b.kind[i] != '/';
    assert Key(a)[|a.kind|] == '/';
  }

  lemma SearchSelects(s: Snapshot, f: Filters, e: Event)
    requires f.target != "" && e in s.log.events && forall x :: x in s.log.events ==> '/' !in x.target.kind
    ensures Selected(e, FirstSelection(s, f)) <==>
              e.sequence <= Newest(s.log) && Matches(e, f) && (Contains(e.target.id, f.target) || e.target in s.named)
  {
    var events, upper := s.log.events, Newest(s.log);
    if e.sequence <= upper && Matches(e, f) {
      assert e.target in Targets(events, upper, f);
      if Key(e.target) in FirstKeys(s, f) {
        var t :| t in Targets(events, upper, f) && (Contains(t.id, f.target) || t in s.named)
            && Key(t) == Key(e.target);
        var i :| 0 <= i < |events| && events[i].target == t;
        assert events[i] in events;
        KeyIsTarget(t, e.target);
      }
    }
  }
}

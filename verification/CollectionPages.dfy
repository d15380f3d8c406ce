/** Pages of the principal and grant collections: filter, sort and slice a bounded candidate list under a
    sealed cursor that binds the whole list. The theorems say what a traversal returns. */
module CollectionPages {
  import opened Wrappers
  import Ulid

  const PAGE_LIMIT := 100
  const CURSOR_LIFETIME := 300

  datatype Collection = PrincipalCollection | GrantCollection

  function CandidateLimit(c: Collection): nat {
    if c.PrincipalCollection? then 128 else 4096
  }

  datatype SortKey =
    | BySequence | ByName | ByDescription | ById | ByPrincipal | ByTarget | ByServer | ByScope
    | ByState | ByVisibility | ByEffect

  datatype Direction = Unspecified | Ascending | Descending

  /** Empty texts filter nothing. */
  datatype Query = Query(
    name: string, identity: string, principal: string, target: string, server: string, scope: string,
    state: string, visibility: string, httpDefault: string, effect: string,
    principalId: string, serverId: string,
    sort: SortKey, direction: Direction, table: bool)

  datatype Candidate = Candidate(
    id: string, name: string,
    principalId: string, principalName: string,
    serverId: string, serverName: string, upstreamName: string,
    scope: string, toolId: string,
    state: string, visibility: string, httpDefault: string, effect: string,
    revision: string, sequence: int)

  /** Unicode normalization, and whether a name and an identity match a search text, as tables over the
      texts in play: any will do. */
  datatype Text = Text(normal: map<string, string>, hits: set<(string, string, string)>)

  function Normalize(t: Text, value: string): string {
    if value in t.normal then t.normal[value] else value
  }

  predicate Search(t: Text, value: string, id: string, query: string) {
    query == "" || (value, id, query) in t.hits
  }

  // ---- filter and order -------------------------------------------------------------------

  predicate Passes(filter: string, value: string) {
    filter == "" || filter == value
  }

  /** `candidateMatches` */
  predicate Matches(t: Text, c: Candidate, q: Query) {
    var legacyScope := if c.upstreamName == "" then "Entire server" else c.upstreamName;
    && Search(t, c.name, c.id, q.name) && Search(t, c.name, c.id, q.identity)
    && Search(t, c.principalName, c.principalId, q.principal)
    && Search(t, c.serverName + " " + legacyScope, c.serverId, q.target)
    && Search(t, c.serverName, c.serverId, q.server) && Search(t, c.scope, c.toolId, q.scope)
    && Passes(q.state, c.state) && Passes(q.visibility, c.visibility) && Passes(q.httpDefault, c.httpDefault)
    && Passes(q.effect, c.effect) && Passes(q.principalId, c.principalId) && Passes(q.serverId, c.serverId)
  }

  const ALL := Query("", "", "", "", "", "", "", "", "", "", "", "", BySequence, Unspecified, false)

  /** Without filters everything matches, and each search narrows by its own name and identity: a grant's
      target is searched by server and tool together. */
  lemma EachSearchNarrows(t: Text, c: Candidate, q: Query)
    ensures Matches(t, c, ALL)
    ensures Matches(t, c, q) <==> Matches(t, c, q.(name := "")) && Search(t, c.name, c.id, q.name)
    ensures Matches(t, c, q) <==> Matches(t, c, q.(identity := "")) && Search(t, c.name, c.id, q.identity)
    ensures Matches(t, c, q) <==>
        Matches(t, c, q.(principal := "")) && Search(t, c.principalName, c.principalId, q.principal)
    ensures Matches(t, c, q) <==> Matches(t, c, q.(server := "")) && Search(t, c.serverName, c.serverId, q.server)
    ensures Matches(t, c, q) <==> Matches(t, c, q.(scope := "")) && Search(t, c.scope, c.toolId, q.scope)
    ensures c.upstreamName == "" ==>
      (Matches(t, c, q) <==>
         Matches(t, c, q.(target := "")) && Search(t, c.serverName + " Entire server", c.serverId, q.target))
    ensures c.upstreamName != "" ==>
      (Matches(t, c, q) <==>
         Matches(t, c, q.(target := "")) && Search(t, c.serverName + " " + c.upstreamName, c.serverId, q.target))
  {
    assert " " + "Entire server" == " Entire server";
    assert c.serverName + " " + "Entire server" == c.serverName + (" " + "Entire server");
  }

  /** Each exact filter, where it is set, narrows by its own column; sort and direction by none. */
  lemma EachFilterNarrows(t: Text, c: Candidate, q: Query)
    ensures Matches(t, c, q) <==> Matches(t, c, q.(state := "")) && (q.state != "" ==> c.state == q.state)
    ensures Matches(t, c, q) <==>
        Matches(t, c, q.(visibility := "")) && (q.visibility != "" ==> c.visibility == q.visibility)
    ensures Matches(t, c, q) <==>
        Matches(t, c, q.(httpDefault := "")) && (q.httpDefault != "" ==> c.httpDefault == q.httpDefault)
    ensures Matches(t, c, q) <==> Matches(t, c, q.(effect := "")) && (q.effect != "" ==> c.effect == q.effect)
    ensures Matches(t, c, q) <==>
        Matches(t, c, q.(principalId := "")) && (q.principalId != "" ==> c.principalId == q.principalId)
    ensures Matches(t, c, q) <==> Matches(t, c, q.(serverId := "")) && (q.serverId != "" ==> c.serverId == q.serverId)
    ensures Matches(t, c, q) <==> Matches(t, c, q.(sort := BySequence, direction := Unspecified, table := false))
  {
  }

  /** `candidateSortValue`; without a sort key the insertion sequence decides. */
  function SortValue(t: Text, c: Candidate, key: SortKey): string {
    match key
    case BySequence => ""
    case ByName => Normalize(t, c.name)
    case ByDescription => Normalize(t, c.name)
    case ById => c.id
    case ByPrincipal => Normalize(t, c.principalName)
    case ByTarget => Normalize(t, c.serverName)
    case ByServer => Normalize(t, c.serverName)
    case ByScope => Normalize(t, c.scope)
    case ByState => c.state
    case ByVisibility => c.visibility
    case ByEffect => c.effect
  }

  function CompareText(a: string, b: string): int {
    if Ulid.Less(a, b) then -1 else if Ulid.Less(b, a) then 1 else 0
  }

  function CompareNumber(a: int, b: int): int {
    if a < b then -1 else if a > b then 1 else 0
  }

  /** The comparison handed to the sort. */
  function Compare(t: Text, q: Query, a: Candidate, b: Candidate): int {
    var order := if q.sort.BySequence? then CompareNumber(a.sequence, b.sequence)
      else CompareText(SortValue(t, a, q.sort), SortValue(t, b, q.sort));
    var directed := if q.direction.Descending? then -order else order;
    if directed == 0 then CompareText(a.id, b.id) else directed
  }

  predicate Precedes(t: Text, q: Query, a: Candidate, b: Candidate) {
    Compare(t, q, a, b) < 0
  }

  lemma {:induction false} LessTrichotomy(a: string, b: string)
    ensures a == b <==> !Ulid.Less(a, b) && !Ulid.Less(b, a)
    ensures !(Ulid.Less(a, b) && Ulid.Less(b, a))
  {
    if a != [] && b != [] && a[0] == b[0] {
      LessTrichotomy(a[1..], b[1..]);
      assert a == [a[0]] + a[1..] && b == [b[0]] + b[1..];
    }
  }

  lemma {:induction false} LessTransitive(a: string, b: string, c: string)
    requires Ulid.Less(a, b) && Ulid.Less(b, c)
    ensures Ulid.Less(a, c)
  {
    if a != [] && a[0] == b[0] == c[0] {
      LessTransitive(a[1..], b[1..], c[1..]);
    }
  }

  /** Text comparison is a three-way comparison by a total order. */
  lemma CompareTextOrders(a: string, b: string, c: string)
    ensures CompareText(a, b) == -CompareText(b, a) && (CompareText(a, b) == 0 <==> a == b)
    ensures CompareText(a, b) < 0 && CompareText(b, c) < 0 ==> CompareText(a, c) < 0
  {
    LessTrichotomy(a, b);
    LessTrichotomy(a, c);
    if Ulid.Less(a, b) && Ulid.Less(b, c) {
      LessTransitive(a, b, c);
    }
  }

  /** Reversing a comparison and swapping the sides both negate it. */
  lemma CompareSwaps(t: Text, q: Query, a: Candidate, b: Candidate)
    ensures Compare(t, q, a, b) == -Compare(t, q, b, a)
    ensures Compare(t, q, a, b) == 0 <==> SameKey(t, q, a, b) && a.id == b.id
  {
    CompareTextOrders(SortValue(t, a, q.sort), SortValue(t, b, q.sort), "");
    CompareTextOrders(a.id, b.id, "");
  }

  predicate SameKey(t: Text, q: Query, a: Candidate, b: Candidate) {
    if q.sort.BySequence? then a.sequence == b.sequence else SortValue(t, a, q.sort) == SortValue(t, b, q.sort)
  }

  /** One text before another, or after it where the direction is descending; equal ones by identity. */
  predicate InOrder(q: Query, x: string, y: string, a: Candidate, b: Candidate) {
    (if q.direction == Descending then Ulid.Less(y, x) else Ulid.Less(x, y)) || (x == y && Ulid.Less(a.id, b.id))
  }

  /** What comes first under each sort key, by the column it names. */
  lemma EachKeySorts(t: Text, q: Query, a: Candidate, b: Candidate)
    ensures q.sort == BySequence ==>
      (Precedes(t, q, a, b) <==>
         || (if q.direction == Descending then b.sequence < a.sequence else a.sequence < b.sequence)
         || (a.sequence == b.sequence && Ulid.Less(a.id, b.id)))
    ensures q.sort in {ByName, ByDescription} ==>
      (Precedes(t, q, a, b) <==> InOrder(q, Normalize(t, a.name), Normalize(t, b.name), a, b))
    ensures q.sort == ById ==> (Precedes(t, q, a, b) <==> InOrder(q, a.id, b.id, a, b))
    ensures q.sort == ByPrincipal ==>
      (Precedes(t, q, a, b) <==> InOrder(q, Normalize(t, a.principalName), Normalize(t, b.principalName), a, b))
    ensures q.sort in {ByTarget, ByServer} ==>
      (Precedes(t, q, a, b) <==> InOrder(q, Normalize(t, a.serverName), Normalize(t, b.serverName), a, b))
    ensures q.sort == ByScope ==>
        (Precedes(t, q, a, b) <==> InOrder(q, Normalize(t, a.scope), Normalize(t, b.scope), a, b))
    ensures q.sort == ByState ==> (Precedes(t, q, a, b) <==> InOrder(q, a.state, b.state, a, b))
    ensures q.sort == ByVisibility ==> (Precedes(t, q, a, b) <==> InOrder(q, a.visibility, b.visibility, a, b))
    ensures q.sort == ByEffect ==> (Precedes(t, q, a, b) <==> InOrder(q, a.effect, b.effect, a, b))
  {
    LessTrichotomy(SortValue(t, a, q.sort), SortValue(t, b, q.sort));
    LessTrichotomy(a.id, b.id);
  }

  lemma PrecedesTransitive(t: Text, q: Query, a: Candidate, b: Candidate, c: Candidate)
    requires Precedes(t, q, a, b) && Precedes(t, q, b, c)
    ensures Precedes(t, q, a, c)
  {
    var x, y, z := SortValue(t, a, q.sort), SortValue(t, b, q.sort), SortValue(t, c, q.sort);
    CompareTextOrders(x, y, z);
    CompareTextOrders(y, z, x);
    CompareTextOrders(z, y, x);
    CompareTextOrders(y, x, z);
    CompareTextOrders(a.id, b.id, c.id);
  }

  /** For candidates with distinct identities the comparison is a strict total order. */
  lemma StrictTotalOrder(t: Text, q: Query, a: Candidate, b: Candidate, c: Candidate)
    ensures !(Precedes(t, q, a, b) && Precedes(t, q, b, a)) && !Precedes(t, q, a, a)
    ensures a.id != b.id ==> Precedes(t, q, a, b) || Precedes(t, q, b, a)
    ensures Precedes(t, q, a, b) && Precedes(t, q, b, c) ==> Precedes(t, q, a, c)
  {
    CompareSwaps(t, q, a, b);
    CompareSwaps(t, q, a, a);
    if Precedes(t, q, a, b) && Precedes(t, q, b, c) {
      PrecedesTransitive(t, q, a, b, c);
    }
  }

  // ---- sorting ----------------------------------------------------------------------------

  function Filter(t: Text, q: Query, s: seq<Candidate>): seq<Candidate> {
    if s == [] then []
    else Filter(t, q, s[..|s| - 1]) + if Matches(t, s[|s| - 1], q) then [s[|s| - 1]] else []
  }

  function Insert(t: Text, q: Query, c: Candidate, s: seq<Candidate>): seq<Candidate> {
    if s == [] || Precedes(t, q, c, s[0]) then [c] + s else [s[0]] + Insert(t, q, c, s[1..])
  }

  function Sort(t: Text, q: Query, s: seq<Candidate>): seq<Candidate> {
    if s == [] then [] else Insert(t, q, s[0], Sort(t, q, s[1..]))
  }

  ghost predicate Ordered(t: Text, q: Query, s: seq<Candidate>) {
    forall i, j :: 0 <= i < j < |s| ==> Precedes(t, q, s[i], s[j])
  }

  ghost predicate DistinctIds(s: seq<Candidate>) {
    forall i, j :: 0 <= i < j < |s| ==> s[i].id != s[j].id
  }

  lemma {:induction false} InsertKeeps(t: Text, q: Query, c: Candidate, s: seq<Candidate>)
    ensures multiset(Insert(t, q, c, s)) == multiset(s) + multiset{c}
  {
    if s != [] && !Precedes(t, q, c, s[0]) {
      InsertKeeps(t, q, c, s[1..]);
      assert s == [s[0]] + s[1..];
    }
  }

  lemma {:induction false} InsertOrders(t: Text, q: Query, c: Candidate, s: seq<Candidate>)
    requires Ordered(t, q, s) && forall i :: 0 <= i < |s| ==> s[i].id != c.id
    ensures Ordered(t, q, Insert(t, q, c, s))
  {
    if s == [] {
    } else if Precedes(t, q, c, s[0]) {
      forall j | 0 < j < |s|
        ensures Precedes(t, q, c, s[j])
      {
        PrecedesTransitive(t, q, c, s[0], s[j]);
      }
    } else {
      StrictTotalOrder(t, q, c, s[0], c);
      InsertOrders(t, q, c, s[1..]);
      HeadPrecedesRest(t, q, c, s);
    }
  }

  lemma HeadPrecedesRest(t: Text, q: Query, c: Candidate, s: seq<Candidate>)
    requires s != [] && Ordered(t, q, s) && Precedes(t, q, s[0], c)
    ensures forall i :: 0 <= i < |Insert(t, q, c, s[1..])| ==> Precedes(t, q, s[0], Insert(t, q, c, s[1..])[i])
  {
    var rest := Insert(t, q, c, s[1..]);
    InsertKeeps(t, q, c, s[1..]);
    forall i | 0 <= i < |rest|
      ensures Precedes(t, q, s[0], rest[i])
    {
      assert rest[i] in multiset(rest);
      assert rest[i] == c || rest[i] in s[1..];
    }
  }

  lemma {:induction false} SortKeeps(t: Text, q: Query, s: seq<Candidate>)
    ensures multiset(Sort(t, q, s)) == multiset(s)
  {
    if s != [] {
      SortKeeps(t, q, s[1..]);
      InsertKeeps(t, q, s[0], Sort(t, q, s[1..]));
      RestMultiset(s);
    }
  }

  lemma {:induction false} SortOrders(t: Text, q: Query, s: seq<Candidate>)
    requires DistinctIds(s)
    ensures Ordered(t, q, Sort(t, q, s))
  {
    if s != [] {
      var rest := Sort(t, q, s[1..]);
      SortOrders(t, q, s[1..]);
      SortKeeps(t, q, s[1..]);
      forall i | 0 <= i < |rest|
        ensures rest[i].id != s[0].id
      {
        assert rest[i] in multiset(s[1..]);
        var j :| 0 <= j < |s[1..]| && s[1..][j] == rest[i];
        assert s[j + 1] == rest[i];
      }
      InsertOrders(t, q, s[0], rest);
    }
  }

  /** The sort permutes its input, and orders it when identities are distinct. */
  lemma SortSorts(t: Text, q: Query, s: seq<Candidate>)
    ensures multiset(Sort(t, q, s)) == multiset(s)
    ensures DistinctIds(s) ==> Ordered(t, q, Sort(t, q, s))
  {
    SortKeeps(t, q, s);
    if DistinctIds(s) {
      SortOrders(t, q, s);
    }
  }

  lemma SameHead(t: Text, q: Query, a: seq<Candidate>, b: seq<Candidate>)
    requires a != [] && Ordered(t, q, a) && Ordered(t, q, b) && multiset(a) == multiset(b)
    ensures b != [] && a[0] == b[0]
  {
    assert a[0] in multiset(a) && |multiset(a)| == |a| && |multiset(b)| == |b|;
    var i :| 0 <= i < |b| && b[i] == a[0];
    assert b[0] in multiset(b);
    var j :| 0 <= j < |a| && a[j] == b[0];
    StrictTotalOrder(t, q, a[0], b[0], a[0]);
  }

  lemma RestMultiset(s: seq<Candidate>)
    requires s != []
    ensures multiset(s[1..]) == multiset(s) - multiset{s[0]} && s == [s[0]] + s[1..]
  {
    assert s == [s[0]] + s[1..];
  }

  /** There is only one ordered arrangement, so the sorting algorithm does not matter. */
  lemma {:induction false} ArrangementIsUnique(t: Text, q: Query, a: seq<Candidate>, b: seq<Candidate>)
    requires Ordered(t, q, a) && Ordered(t, q, b) && multiset(a) == multiset(b)
    ensures a == b
  {
    if a == [] {
      assert |multiset(b)| == |b| == 0;
    } else {
      SameHead(t, q, a, b);
      RestMultiset(a);
      RestMultiset(b);
      ArrangementIsUnique(t, q, a[1..], b[1..]);
    }
  }

  lemma {:induction false} FilterMembers(t: Text, q: Query, s: seq<Candidate>)
    ensures forall c :: c in Filter(t, q, s) <==> c in s && Matches(t, c, q)
  {
    if s != [] {
      FilterMembers(t, q, s[..|s| - 1]);
      assert s == s[..|s| - 1] + [s[|s| - 1]];
    }
  }

  lemma {:induction false} FilterKeepsDistinct(t: Text, q: Query, s: seq<Candidate>)
    requires DistinctIds(s)
    ensures DistinctIds(Filter(t, q, s))
  {
    if s != [] {
      var fewer := s[..|s| - 1];
      var kept := Filter(t, q, fewer);
      FilterKeepsDistinct(t, q, fewer);
      FilterMembers(t, q, fewer);
      forall i | 0 <= i < |kept|
        ensures kept[i].id != s[|s| - 1].id
      {
        assert kept[i] in fewer;
      }
    }
  }

  /** What a traversal as a whole should return. */
  function Arranged(t: Text, q: Query, candidates: seq<Candidate>): seq<Candidate> {
    Sort(t, q, Filter(t, q, candidates))
  }

  /** The arrangement holds exactly the matching candidates, once each, in strict order. */
  lemma ArrangedIs(t: Text, q: Query, candidates: seq<Candidate>)
    requires DistinctIds(candidates)
    ensures Ordered(t, q, Arranged(t, q, candidates))
    ensures forall c :: c in Arranged(t, q, candidates) <==> c in candidates && Matches(t, c, q)
    ensures |Arranged(t, q, candidates)| <= |candidates|
  {
    var filtered := Filter(t, q, candidates);
    FilterMembers(t, q, candidates);
    FilterKeepsDistinct(t, q, candidates);
    SortSorts(t, q, filtered);
    assert forall c :: c in Arranged(t, q, candidates) <==> c in multiset(Arranged(t, q, candidates));
    assert forall c :: c in filtered <==> c in multiset(filtered);
    Sizes(t, q, candidates);
  }

  lemma {:induction false} Sizes(t: Text, q: Query, s: seq<Candidate>)
    ensures |Arranged(t, q, s)| == |Filter(t, q, s)| <= |s|
  {
    SortSorts(t, q, Filter(t, q, s));
    assert |multiset(Arranged(t, q, s))| == |multiset(Filter(t, q, s))|;
    if s != [] {
      Sizes(t, q, s[..|s| - 1]);
    }
  }

  // ---- pages ------------------------------------------------------------------------------

  /** Digests and MACs that no two inputs share. */
  datatype Digest = Digest(collection: Collection, query: Query, candidates: seq<Candidate>)
  datatype Mac = Mac(key: nat, position: Position)

  datatype Position = Position(
    collection: Collection, binding: Digest, upper: int, after: int, afterId: string, expires: int)

  datatype Token = Token(position: Position, mac: Mac)

  datatype Page = Page(items: seq<Candidate>, total: nat, offset: nat, next: Option<Token>)

  datatype Failure = ResourceLimit | StaleCursor | InvalidInput

  /** One call: the clock, the query, the candidates its transaction reads, the cursor and the limit. */
  datatype Request = Request(
    now: int, collection: Collection, query: Query, candidates: seq<Candidate>, cursor: Option<Token>, limit: int)

  function Bind(r: Request): Digest {
    Digest(r.collection, r.query, r.candidates)
  }

  function Seal(key: nat, p: Position): Token {
    Token(p, Mac(key, p))
  }

  predicate Authentic(key: nat, now: int, c: Token) {
    c.position.expires > now && c.mac == Mac(key, c.position)
  }

  function Start(r: Request): Position {
    if r.cursor.Some? then r.cursor.value.position
    else Position(r.collection, Bind(r), 0, 0, "", r.now + CURSOR_LIFETIME)
  }

  predicate Fresh(key: nat, r: Request) {
    r.cursor.Some? ==>
      var p := r.cursor.value.position;
      && Authentic(key, r.now, r.cursor.value) && p.collection == r.collection && p.binding == Bind(r)
      && 0 <= p.after <= |r.candidates|
  }

  /** The slice of the arrangement that starts at a position. */
  function Slice(key: nat, p: Position, all: seq<Candidate>, count: nat, limit: int): Page
    requires limit >= 1 && 0 <= p.after <= |all|
  {
    var end := if p.after + limit < |all| then p.after + limit else |all|;
    Page(all[p.after..end], |all|, p.after,
         if end < |all| then Some(Seal(key, p.(after := end, afterId := all[end - 1].id, upper := count))) else None)
  }

  /** `selectPage`, behind the limit check of its callers. */
  function Select(t: Text, key: nat, r: Request): Result<Page, Failure> {
    if r.limit < 1 || r.limit > PAGE_LIMIT then Err(InvalidInput)
    else if |r.candidates| > CandidateLimit(r.collection) then Err(ResourceLimit)
    else if !Fresh(key, r) then Err(StaleCursor)
    else
      var all := Arranged(t, r.query, r.candidates);
      var p := Start(r);
      if p.after > |all| || (p.after > 0 && all[p.after - 1].id != p.afterId) then Err(StaleCursor)
      else Ok(Slice(key, p, all, |r.candidates|, r.limit))
  }

  /** Which cursors are taken, of all there could be: unexpired, sealed with the key, for this collection and
      this very question and candidate list, and at a place of the arrangement whose item before is the one
      it names. */
  lemma StaleMeans(t: Text, key: nat, r: Request, c: Token)
    requires r.cursor == Some(c) && 1 <= r.limit <= 100 && |r.candidates| <= CandidateLimit(r.collection)
    ensures Select(t, key, r).Ok? <==>
              var p, all := c.position, Arranged(t, r.query, r.candidates);
              && r.now < p.expires && c.mac == Mac(key, p)
              && p.collection == r.collection && p.binding == Digest(r.collection, r.query, r.candidates)
              && 0 <= p.after <= |all| && (p.after > 0 ==> all[p.after - 1].id == p.afterId)
    ensures Select(t, key, r).Ok? || Select(t, key, r) == Err(StaleCursor)
  {
    Sizes(t, r.query, r.candidates);
  }

  method SelectPage(t: Text, key: nat, r: Request) returns (page: Result<Page, Failure>)
    ensures page == Select(t, key, r)
    ensures page == Err(InvalidInput) <==> !(1 <= r.limit <= 100)
    ensures page == Err(ResourceLimit) <==>
              1 <= r.limit <= 100 && |r.candidates| > (if r.collection == PrincipalCollection then 128 else 4096)
    ensures page.Ok? ==>
              && |page.value.items| <= r.limit && (page.value.next != None ==> |page.value.items| == r.limit)
              && (r.cursor == None ==> page.value.offset == 0)
              && (page.value.next != None && r.cursor == None ==> page.value.next.value.position.expires == r.now + 300)
  {
    if r.limit < 1 || r.limit > PAGE_LIMIT {
      return Err(InvalidInput);
    }
    if |r.candidates| > CandidateLimit(r.collection) {
      return Err(ResourceLimit);
    }
    var position := Start(r);
    if !Fresh(key, r) {
      return Err(StaleCursor);
    }
    var filtered: seq<Candidate> := [];
    for i := 0 to |r.candidates|
      invariant filtered == Filter(t, r.query, r.candidates[..i])
    {
      assert r.candidates[..i + 1][..i] == r.candidates[..i];
      if Matches(t, r.candidates[i], r.query) {
        filtered := filtered + [r.candidates[i]];
      }
    }
    assert r.candidates[..|r.candidates|] == r.candidates;
    var sorted := Sort(t, r.query, filtered);
    var start := position.after;
    if start > |sorted| || (start > 0 && sorted[start - 1].id != position.afterId) {
      return Err(StaleCursor);
    }
    var end := if start + r.limit < |sorted| then start + r.limit else |sorted|;
    var next: Option<Token> := None;
    if end < |sorted| {
      position := position.(after := end, afterId := sorted[end - 1].id, upper := |r.candidates|);
      next := Some(Seal(key, position));
    }
    return Ok(Page(sorted[start..end], |sorted|, start, next));
  }

  // ---- traversals -------------------------------------------------------------------------

  predicate Follows(page: Page, r: Request) {
    page.next.Some? && r.cursor == page.next
  }

  /** Pages each asked for with the cursor of the one before, down to one without. The limits, the clock
      and what the database holds may vary. */
  ghost predicate Traversal(t: Text, key: nat, requests: seq<Request>, pages: seq<Page>) {
    && 0 < |pages| == |requests| && requests[0].cursor.None? && pages[|pages| - 1].next.None?
    && (forall i :: 0 <= i < |pages| ==> Select(t, key, requests[i]) == Ok(pages[i]))
    && (forall i :: 0 <= i < |pages| - 1 ==> Follows(pages[i], requests[i + 1]))
  }

  function Items(pages: seq<Page>, i: nat): seq<Candidate>
    requires i <= |pages|
    decreases |pages| - i
  {
    if i == |pages| then [] else pages[i].items + Items(pages, i + 1)
  }

  /** What the first request fixes: the arrangement, the digest of what it was made from, and when its
      cursors expire. */
  datatype Frame = Frame(all: seq<Candidate>, binding: Digest, expires: int)

  function FrameOf(t: Text, first: Request): Frame {
    Frame(Arranged(t, first.query, first.candidates), Bind(first), first.now + CURSOR_LIFETIME)
  }

  /** The page is the frame's slice at its offset, and its cursor continues in the same frame. */
  predicate SliceOf(f: Frame, page: Page) {
    && page.total == |f.all| && page.offset + |page.items| <= |f.all|
    && page.items == f.all[page.offset..page.offset + |page.items|]
    && match page.next {
         case None => page.offset + |page.items| == |f.all|
         case Some(c) => c.position.after == page.offset + |page.items| && c.position.binding == f.binding
             && c.position.expires == f.expires
       }
  }

  lemma FirstSlice(t: Text, key: nat, r: Request)
    requires r.cursor.None? && Select(t, key, r).Ok?
    ensures SliceOf(FrameOf(t, r), Select(t, key, r).value) && Select(t, key, r).value.offset == 0
  {
  }

  /** The request came before the frame expired, and its page is the slice after this one. */
  predicate Joins(f: Frame, page: Page, r: Request, next: Page) {
    r.now < f.expires && SliceOf(f, next) && next.offset == page.offset + |page.items|
  }

  /** A continuing page that succeeds shows that the request asks the same of the same candidates. */
  lemma NextSlice(t: Text, key: nat, first: Request, page: Page, r: Request)
    requires SliceOf(FrameOf(t, first), page) && Follows(page, r) && Select(t, key, r).Ok?
    ensures Joins(FrameOf(t, first), page, r, Select(t, key, r).value)
    ensures r.query == first.query && r.candidates == first.candidates
  {
  }

  /** Each slice of the frame is followed by the next. */
  ghost predicate Continued(f: Frame, requests: seq<Request>, pages: seq<Page>) {
    && |pages| == |requests|
    && forall i :: 0 <= i < |pages| - 1 && SliceOf(f, pages[i]) ==> Joins(f, pages[i], requests[i + 1], pages[i + 1])
  }

  lemma TraversalContinues(t: Text, key: nat, requests: seq<Request>, pages: seq<Page>)
    requires Traversal(t, key, requests, pages)
    ensures Continued(FrameOf(t, requests[0]), requests, pages)
  {
    var first := requests[0];
    forall i | 0 <= i < |pages| - 1 && SliceOf(FrameOf(t, first), pages[i])
      ensures Joins(FrameOf(t, first), pages[i], requests[i + 1], pages[i + 1])
    {
      assert Follows(pages[i], requests[i + 1]);
      NextSlice(t, key, first, pages[i], requests[i + 1]);
    }
  }

  lemma SlicesJoin(all: seq<Candidate>, items: seq<Candidate>, offset: nat)
    requires offset + |items| <= |all| && items == all[offset..offset + |items|]
    ensures items + all[offset + |items|..] == all[offset..]
  {
  }

  lemma {:induction false} ItemsFrom(f: Frame, requests: seq<Request>, pages: seq<Page>, i: nat)
    requires Continued(f, requests, pages) && i < |pages| && SliceOf(f, pages[i]) && pages[|pages| - 1].next.None?
    ensures Items(pages, i) == f.all[pages[i].offset..]
    decreases |pages| - i
  {
    SlicesJoin(f.all, pages[i].items, pages[i].offset);
    if i < |pages| - 1 {
      ItemsFrom(f, requests, pages, i + 1);
    } else {
      assert Items(pages, i + 1) == [];
    }
  }

  function Lengths(pages: seq<Page>, i: nat): nat
    requires i <= |pages|
  {
    if i == 0 then 0 else Lengths(pages, i - 1) + |pages[i - 1].items|
  }

  lemma {:induction false} SliceAt(f: Frame, requests: seq<Request>, pages: seq<Page>, i: nat)
    requires Continued(f, requests, pages) && i < |pages| && SliceOf(f, pages[0]) && pages[0].offset == 0
    ensures SliceOf(f, pages[i]) && pages[i].offset == Lengths(pages, i) && (i > 0 ==> requests[i].now < f.expires)
  {
    if i > 0 {
      SliceAt(f, requests, pages, i - 1);
    }
  }

  /** The pages of a traversal that never goes stale, whatever their limits, concatenate to the sorted
      filter of the first request's candidates. */
  lemma TraversalIsArranged(t: Text, key: nat, requests: seq<Request>, pages: seq<Page>)
    requires Traversal(t, key, requests, pages)
    ensures Items(pages, 0) == Arranged(t, requests[0].query, requests[0].candidates)
  {
    FirstSlice(t, key, requests[0]);
    TraversalContinues(t, key, requests, pages);
    ItemsFrom(FrameOf(t, requests[0]), requests, pages, 0);
  }

  /** Each page's offset is the sum of the earlier pages' lengths, the total never changes, and no page
      comes later than the lifetime the first one started. */
  lemma PageAccounting(t: Text, key: nat, requests: seq<Request>, pages: seq<Page>, i: nat)
    requires Traversal(t, key, requests, pages) && i < |pages|
    ensures pages[i].offset == Lengths(pages, i) && pages[i].total == |Items(pages, 0)|
    ensures i > 0 ==> requests[i].now < requests[0].now + CURSOR_LIFETIME
  {
    FirstSlice(t, key, requests[0]);
    TraversalContinues(t, key, requests, pages);
    SliceAt(FrameOf(t, requests[0]), requests, pages, i);
    TraversalIsArranged(t, key, requests, pages);
  }

  /** Whatever page came before, its continuation succeeds exactly while the question and the candidates
      are the same and the lifetime the traversal started with lasts; otherwise it goes stale. */
  lemma ContinuesOrStale(t: Text, key: nat, prev: Request, r: Request)
    requires Select(t, key, prev).Ok? && Follows(Select(t, key, prev).value, r)
    requires 1 <= r.limit <= PAGE_LIMIT && |r.candidates| <= CandidateLimit(r.collection)
    ensures Select(t, key, r).Ok? <==> Bind(r) == Bind(prev) && r.now < Start(prev).expires
    ensures Select(t, key, r).Ok? || Select(t, key, r) == Err(StaleCursor)
    ensures Select(t, key, r).Ok? ==> Start(r).expires == Start(prev).expires
  {
    Sizes(t, prev.query, prev.candidates);
  }
}

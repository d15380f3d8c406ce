/** The administrator service: the transactions of `internal/admin`, each run atomically on the
    stored table and each proved to commit exactly the effect `AdminCredentials.Step` describes or to
    leave the store as it was. Clock reads, generated secrets and identities are parameters. */
module AdminService {
  import opened Wrappers
  import opened AdminCredentials

  const ADMIN_PREFIX := "mgw_admin_"
  const AGENT_PREFIX := "mgw_agent_"

  datatype Error =
    | InvalidExpiry | StaleAuthority | ResourceLimit | InsertConflict | NotFound | LastNonExpiring
    | RotationConflict | AlreadyInitialized | NotInitialized | AuthenticationRequired | DomainMismatch

  // ---- sorting the terminal rows ----------------------------------------------------------

  datatype TerminalCredential = TerminalCredential(id: nat, createdAt: int)

  predicate Before(a: TerminalCredential, b: TerminalCredential) {
    a.createdAt < b.createdAt || (a.createdAt == b.createdAt && a.id < b.id)
  }

  function InsertSorted(t: TerminalCredential, sorted: seq<TerminalCredential>): seq<TerminalCredential> {
    if sorted == [] || Before(t, sorted[0]) then [t] + sorted else [sorted[0]] + InsertSorted(t, sorted[1..])
  }

  /** `sort.Slice` with the eviction order. */
  function Sorted(ts: seq<TerminalCredential>): seq<TerminalCredential> {
    if ts == [] then [] else InsertSorted(ts[0], Sorted(ts[1..]))
  }

  ghost predicate Ascending(ts: seq<TerminalCredential>) {
    forall i, j :: 0 <= i < j < |ts| ==> Before(ts[i], ts[j])
  }

  lemma {:induction false} InsertSortedPermutes(t: TerminalCredential, sorted: seq<TerminalCredential>)
    ensures multiset(InsertSorted(t, sorted)) == multiset{t} + multiset(sorted)
  {
    if sorted != [] && !Before(t, sorted[0]) {
      InsertSortedPermutes(t, sorted[1..]);
      assert sorted == [sorted[0]] + sorted[1..];
    }
  }

  lemma FirstStaysFirst(t: TerminalCredential, sorted: seq<TerminalCredential>)
    requires sorted != [] && Ascending(sorted) && Before(sorted[0], t)
    ensures forall x :: x in InsertSorted(t, sorted[1..]) ==> Before(sorted[0], x)
  {
    var rest := InsertSorted(t, sorted[1..]);
    InsertSortedPermutes(t, sorted[1..]);
    forall x | x in rest
      ensures Before(sorted[0], x)
    {
      assert x in multiset(rest);
      assert x == t || x in sorted[1..];
    }
  }

  lemma {:induction false} InsertSortedKeeps(t: TerminalCredential, sorted: seq<TerminalCredential>)
    requires Ascending(sorted) && forall i :: 0 <= i < |sorted| ==> sorted[i].id != t.id
    ensures Ascending(InsertSorted(t, sorted))
  {
    if sorted != [] && !Before(t, sorted[0]) {
      InsertSortedKeeps(t, sorted[1..]);
      FirstStaysFirst(t, sorted);
    }
  }

  lemma {:induction false} SortedKeeps(ts: seq<TerminalCredential>)
    requires forall i, j :: 0 <= i < j < |ts| ==> ts[i].id != ts[j].id
    ensures Ascending(Sorted(ts)) && multiset(Sorted(ts)) == multiset(ts)
  {
    if ts != [] {
      SortedKeeps(ts[1..]);
      var rest := Sorted(ts[1..]);
      forall i | 0 <= i < |rest|
        ensures rest[i].id != ts[0].id
      {
        assert rest[i] in multiset(ts[1..]);
      }
      InsertSortedKeeps(ts[0], rest);
      InsertSortedPermutes(ts[0], rest);
      assert ts == [ts[0]] + ts[1..];
    }
  }

  // ---- choosing the victims ---------------------------------------------------------------

  /** `ts` lists the terminal rows among `seen`, each once. */
  ghost predicate Lists(ts: seq<TerminalCredential>, rows: Table, now: int, seen: set<nat>) {
    && (forall i :: 0 <= i < |ts| ==> ts[i].id in rows && ts[i].id in seen && Terminal(rows[ts[i].id], now)
                                      && ts[i].createdAt == rows[ts[i].id].createdAt)
    && (forall i, j :: 0 <= i < j < |ts| ==> ts[i].id != ts[j].id)
    && (forall id :: id in seen && id in rows && Terminal(rows[id], now) ==>
         exists i :: 0 <= i < |ts| && ts[i].id == id)
  }

  ghost function Ids(ts: seq<TerminalCredential>): set<nat> {
    set i | 0 <= i < |ts| :: ts[i].id
  }

  lemma {:induction false} IdsSize(ts: seq<TerminalCredential>)
    requires forall i, j :: 0 <= i < j < |ts| ==> ts[i].id != ts[j].id
    ensures |Ids(ts)| == |ts|
  {
    if ts != [] {
      var n := |ts| - 1;
      IdsSize(ts[..n]);
      assert Ids(ts) == Ids(ts[..n]) + {ts[n].id};
    }
  }

  lemma ListsAll(ts: seq<TerminalCredential>, rows: Table, now: int)
    requires Lists(ts, rows, now, rows.Keys)
    ensures Ids(ts) == Terminals(rows, now) && |ts| == |Terminals(rows, now)|
  {
    IdsSize(ts);
  }

  lemma PermutedMembers(a: seq<TerminalCredential>, b: seq<TerminalCredential>)
    requires multiset(a) == multiset(b)
    ensures |a| == |b| && forall x :: x in a <==> x in b
  {
    assert |a| == |multiset(a)| && |b| == |multiset(b)|;
    assert forall x :: x in a <==> x in multiset(a);
    assert forall x :: x in b <==> x in multiset(b);
  }

  lemma SortedLists(ts: seq<TerminalCredential>, rows: Table, now: int)
    requires Lists(ts, rows, now, rows.Keys)
    ensures Ascending(Sorted(ts)) && |Sorted(ts)| == |ts| && Lists(Sorted(ts), rows, now, rows.Keys)
  {
    SortedKeeps(ts);
    var sorted := Sorted(ts);
    PermutedMembers(sorted, ts);
    ListedByMembers(ts, sorted, rows, now);
  }

  lemma ListedByMembers(ts: seq<TerminalCredential>, sorted: seq<TerminalCredential>, rows: Table, now: int)
    requires Lists(ts, rows, now, rows.Keys) && Ascending(sorted) && forall x :: x in sorted <==> x in ts
    ensures Lists(sorted, rows, now, rows.Keys)
  {
    forall i | 0 <= i < |sorted|
      ensures sorted[i] in ts
    {
      assert sorted[i] in sorted;
    }
    AscendingDistinct(ts, sorted, rows, now);
    forall id | id in rows && Terminal(rows[id], now)
      ensures exists i :: 0 <= i < |sorted| && sorted[i].id == id
    {
      var i :| 0 <= i < |ts| && ts[i].id == id;
      assert ts[i] in sorted;
    }
  }

  lemma AscendingDistinct(ts: seq<TerminalCredential>, sorted: seq<TerminalCredential>, rows: Table, now: int)
    requires Lists(ts, rows, now, rows.Keys) && Ascending(sorted) && forall x :: x in sorted ==> x in ts
    ensures forall i, j :: 0 <= i < j < |sorted| ==> sorted[i].id != sorted[j].id
  {
    forall i, j | 0 <= i < j < |sorted|
      ensures sorted[i].id != sorted[j].id
    {
      assert Before(sorted[i], sorted[j]);
      assert sorted[i] in ts && sorted[j] in ts;
    }
  }

  lemma TakenIds(sorted: seq<TerminalCredential>, n: nat, id: nat)
    requires n <= |sorted|
    ensures id in Ids(sorted[..n]) <==> exists i :: 0 <= i < n && sorted[i].id == id
  {
    if id in Ids(sorted[..n]) {
      var i :| 0 <= i < n && sorted[..n][i].id == id;
      assert sorted[i].id == id;
    }
    if i :| 0 <= i < n && sorted[i].id == id {
      assert sorted[..n][i].id == id;
    }
  }

  /** A listed row that is not among the first ones comes after each of them. */
  lemma TakenIsOlder(sorted: seq<TerminalCredential>, rows: Table, now: int, n: nat, v: nat, t: nat)
    requires Lists(sorted, rows, now, rows.Keys) && Ascending(sorted) && n <= |sorted|
    requires v in Ids(sorted[..n]) && t in Terminals(rows, now) && t !in Ids(sorted[..n])
    ensures v in rows && Older(rows, v, t)
  {
    TakenIds(sorted, n, v);
    TakenIds(sorted, n, t);
    var i :| 0 <= i < n && sorted[i].id == v;
    var j :| 0 <= j < |sorted| && sorted[j].id == t;
    assert Before(sorted[i], sorted[j]);
  }

  lemma TakenIsListed(sorted: seq<TerminalCredential>, n: nat)
    requires n <= |sorted|
    ensures Ids(sorted[..n]) <= Ids(sorted)
  {
    forall id | id in Ids(sorted[..n])
      ensures id in Ids(sorted)
    {
      TakenIds(sorted, n, id);
    }
  }

  /** The first rows of the sorted list are exactly the rows the pruning rule names. */
  lemma FirstOfSorted(sorted: seq<TerminalCredential>, rows: Table, now: int)
    requires Lists(sorted, rows, now, rows.Keys) && Ascending(sorted) && Needed(rows) <= |sorted|
    ensures Prunes(rows, now, Ids(sorted[..Needed(rows)]))
  {
    var n := Needed(rows);
    IdsSize(sorted[..n]);
    ListsAll(sorted, rows, now);
    TakenIsListed(sorted, n);
    forall v, t | v in Ids(sorted[..n]) && t in Terminals(rows, now) - Ids(sorted[..n])
      ensures Older(rows, v, t)
    {
      TakenIsOlder(sorted, rows, now, n, v, t);
    }
  }

  lemma SortedVictims(terminals: seq<TerminalCredential>, rows: Table, now: int)
    requires Lists(terminals, rows, now, rows.Keys) && Needed(rows) <= |terminals|
    ensures |Sorted(terminals)| == |terminals| && Prunes(rows, now, Ids(Sorted(terminals)[..Needed(rows)]))
  {
    SortedLists(terminals, rows, now);
    FirstOfSorted(Sorted(terminals), rows, now);
  }

  predicate ValidExpiry(c: Candidate, now: int) {
    c.expiresAt.Some? ==> MINIMUM_LIFETIME <= c.expiresAt.value - now <= MAXIMUM_LIFETIME
  }

  /** The credential is active, not expired, and the bearer is its secret. */
  predicate Accepts(rows: Table, bearer: string, now: int, id: nat) {
    id in rows && rows[id].verifier == Digest(bearer) && StatusAt(rows[id], now) == SeenActive
  }

  /** The table holds the candidate's secret, fingerprint, creation time and expiry under its identity, active
      at this revision. */
  predicate Installed(rows: Table, c: Candidate, revision: nat) {
    && c.id in rows && rows[c.id].verifier.bearer == c.bearer && rows[c.id].fingerprint == c.fingerprint
    && rows[c.id].createdAt == c.createdAt && rows[c.id].expiresAt == c.expiresAt
    && rows[c.id].status == Active && rows[c.id].revision == revision
  }

  /** Apart from this identity, rows stay as they were or go, and only finished ones go. */
  ghost predicate OthersKept(before: Table, after: Table, id: nat, now: int) {
    && (forall k :: k in after && k != id ==> k in before && after[k] == before[k])
    && (forall k :: k in before && k !in after ==> Finished(before[k], now))
  }

  /** Apart from this identity, whatever is left is revoked. */
  ghost predicate OthersRevoked(before: Table, after: Table, id: nat) {
    forall k :: k in after && k != id ==>
      && k in before && after[k].status == Revoked && after[k].verifier == before[k].verifier
      && after[k].expiresAt == before[k].expiresAt && after[k].createdAt == before[k].createdAt
  }

  lemma OthersStayRevoked(before: Table, revoked: Table, after: Table, id: nat, now: int)
    requires (exists revision: nat :: revoked == RevokeAll(before, revision)) && OthersKept(revoked, after, id, now)
    ensures OthersRevoked(before, after, id)
  {
    assert forall k :: k in before ==> k in revoked && revoked[k].status == Revoked;
  }

  /** The If-Match revision, where one is given, is the present one. */
  ghost predicate Matches(rows: Table, expected: Option<nat>) {
    expected.Some? ==> expected.value == Authority(rows)
  }

  /** The pruning rule leaves room for the candidate, and nothing it leaves clashes with it. */
  ghost predicate Admits(rows: Table, now: int, c: Candidate) {
    exists victims :: Prunes(rows, now, victims) && Insertable(rows - victims, c)
  }

  lemma NoRoomAdmitsNobody(rows: Table, now: int, c: Candidate)
    requires Needed(rows) > |Terminals(rows, now)|
    ensures !Admits(rows, now, c)
  {
    forall victims | victims <= Terminals(rows, now)
      ensures |victims| <= |Terminals(rows, now)|
    {
      assert Terminals(rows, now) == victims + (Terminals(rows, now) - victims);
    }
  }

  lemma PrunedDecides(rows: Table, now: int, c: Candidate, victims: set<nat>)
    requires Prunes(rows, now, victims)
    ensures Admits(rows, now, c) <==> Insertable(rows - victims, c)
  {
    forall other | Prunes(rows, now, other)
      ensures other == victims
    {
      PruneIsDetermined(rows, now, victims, other);
    }
  }

  lemma {:induction false} ListsExist(rows: Table, now: int, seen: set<nat>) returns (ts: seq<TerminalCredential>)
    requires seen <= rows.Keys
    ensures Lists(ts, rows, now, seen)
  {
    if seen == {} {
      ts := [];
    } else {
      var id :| id in seen;
      var before := ListsExist(rows, now, seen - {id});
      ts := if Terminal(rows[id], now) then before + [TerminalCredential(id, rows[id].createdAt)] else before;
      ListsStep(before, ts, rows, now, seen - {id}, id);
      assert seen - {id} + {id} == seen;
    }
  }

  /** Where enough rows are revoked or expired, the pruning rule names a set of rows, and the candidate is
      refused exactly when something that this set leaves behind clashes with it. */
  lemma RoomDecides(rows: Table, now: int, c: Candidate)
    requires Needed(rows) <= |Terminals(rows, now)|
    ensures exists victims :: Prunes(rows, now, victims)
    ensures !Admits(rows, now, c) <==> exists victims :: Prunes(rows, now, victims) && !Insertable(rows - victims, c)
  {
    var ts := ListsExist(rows, now, rows.Keys);
    ListsAll(ts, rows, now);
    SortedVictims(ts, rows, now);
    var named := Ids(Sorted(ts)[..Needed(rows)]);
    PrunedDecides(rows, now, c, named);
    forall victims | Prunes(rows, now, victims)
      ensures victims == named
    {
      PruneIsDetermined(rows, now, victims, named);
    }
  }

  // ---- the service ------------------------------------------------------------------------

  class AdminService {
    var rows: Table
    var revision: nat

    ghost function Store(): Db
      reads this
    {
      Db(rows, revision)
    }

    constructor ()
      ensures Store() == Db(map[], 0)
    {
      rows, revision := map[], 0;
    }

    /** `queryAuthorityRevision` */
    method QueryAuthorityRevision() returns (r: nat)
      ensures r == Authority(rows)
    {
      r := 0;
      var unread := rows.Keys;
      while unread != {}
        invariant unread <= rows.Keys
        invariant forall id :: id in rows && id !in unread ==> rows[id].revision <= r
        invariant (unread == rows.Keys && r == 0) || exists id :: id in rows && rows[id].revision == r
        decreases unread
      {
        var id :| id in unread;
        if unread == rows.Keys || rows[id].revision > r {
          r := rows[id].revision;
        }
        unread := unread - {id};
      }
      AuthorityUnique(rows, r);
    }

    /** `AuthenticateTx`: the prefix checks and the scan over active rows. */
    method Authenticate(bearer: string, now: int) returns (r: Result<nat, Error>)
      requires UniqueVerifiers(rows)
      ensures r == Err(DomainMismatch) <==> AGENT_PREFIX <= bearer
      ensures r.Err? ==> r.error == DomainMismatch || r.error == AuthenticationRequired
      ensures forall id: nat :: r == Ok(id) <==>
                ADMIN_PREFIX <= bearer && Accepts(rows, bearer, now, id)
    {
      PrefixesDiffer(bearer);
      if AGENT_PREFIX <= bearer {
        return Err(DomainMismatch);
      }
      if !(ADMIN_PREFIX <= bearer) {
        return Err(AuthenticationRequired);
      }
      var matched: Option<nat> := None;
      var unread := set id | id in rows && rows[id].status.Active?;
      while unread != {}
        invariant forall id :: id in unread ==> ActiveRow(rows, id)
        invariant matched.Some? ==> Accepts(rows, bearer, now, matched.value)
        invariant forall id: nat :: Accepts(rows, bearer, now, id) ==> id in unread || matched == Some(id)
        decreases unread
      {
        var id :| id in unread;
        if rows[id].verifier == Digest(bearer) && StatusAt(rows[id], now) == SeenActive {
          matched := Some(id);
        }
        unread := unread - {id};
      }
      r := if matched.Some? then Ok(matched.value) else Err(AuthenticationRequired);
    }

    /** `pruneForInsert`: list the terminal rows, sort them, delete as many as are in the way. */
    method PruneForInsert(now: int) returns (ok: bool, ghost victims: set<nat>)
      modifies this`rows
      ensures ok <==> Needed(old(rows)) <= |Terminals(old(rows), now)|
      ensures ok ==> Prunes(old(rows), now, victims) && rows == old(rows) - victims
      ensures !ok ==> rows == old(rows)
      ensures ok ==> |victims| == (if |old(rows)| <= 127 then 0 else |old(rows)| - 127) && victims <= old(rows).Keys
      ensures ok ==> forall v :: v in victims ==> Finished(old(rows)[v], now)
      ensures ok ==> forall v, t :: v in victims && t in rows && Finished(rows[t], now) ==>
                       || old(rows)[v].createdAt < rows[t].createdAt
                       || (old(rows)[v].createdAt == rows[t].createdAt && v < t)
    {
      victims := {};
      var terminals := ListTerminals(now);
      ListsAll(terminals, rows, now);
      var needed := |rows| - LIMIT + 1;
      if needed <= 0 {
        assert rows - {} == rows;
        PruneMeans(rows, now, {});
        return true, {};
      }
      if |terminals| < needed {
        return false, {};
      }
      victims := DeleteOldest(terminals, now);
      PruneMeans(old(rows), now, victims);
      ok := true;
    }

    /** The sort and the deletes. */
    method DeleteOldest(terminals: seq<TerminalCredential>, ghost now: int) returns (ghost victims: set<nat>)
      requires Lists(terminals, rows, now, rows.Keys) && Needed(rows) <= |terminals|
      modifies this`rows
      ensures Prunes(old(rows), now, victims) && rows == old(rows) - victims
    {
      SortedVictims(terminals, rows, now);
      var doomed := Sorted(terminals)[..Needed(rows)];
      victims := Ids(doomed);
      DeleteAll(doomed);
    }

    method DeleteAll(doomed: seq<TerminalCredential>)
      modifies this`rows
      ensures rows == old(rows) - Ids(doomed)
    {
      for i := 0 to |doomed|
        invariant rows == old(rows) - Ids(doomed[..i])
      {
        assert Ids(doomed[..i + 1]) == Ids(doomed[..i]) + {doomed[i].id};
        rows := rows - {doomed[i].id};
      }
      assert doomed[..|doomed|] == doomed;
    }

    method ListTerminals(now: int) returns (terminals: seq<TerminalCredential>)
      ensures Lists(terminals, rows, now, rows.Keys)
    {
      terminals := [];
      var unread := rows.Keys;
      while unread != {}
        invariant unread <= rows.Keys && Lists(terminals, rows, now, rows.Keys - unread)
        decreases unread
      {
        var id :| id in unread;
        ghost var before := terminals;
        if Terminal(rows[id], now) {
          terminals := terminals + [TerminalCredential(id, rows[id].createdAt)];
        }
        ListsStep(before, terminals, rows, now, rows.Keys - unread, id);
        assert rows.Keys - (unread - {id}) == (rows.Keys - unread) + {id};
        unread := unread - {id};
      }
      assert rows.Keys - unread == rows.Keys;
    }

    method Insert(c: Candidate, at: nat) returns (ok: bool)
      modifies this`rows
      ensures ok <==> Insertable(old(rows), c)
      ensures ok ==> rows == old(rows)[c.id := Insertion(c, at)]
      ensures !ok ==> rows == old(rows)
    {
      ok := Insertable(rows, c);
      if ok {
        rows := rows[c.id := Insertion(c, at)];
      }
    }

    /** The tail shared by `create` and `Reset`; a failure rolls the pruning back. */
    method PruneAndInsert(c: Candidate, now: int, at: nat) returns (failure: Option<Error>, ghost victims: set<nat>)
      modifies this`rows
      ensures failure.None? ==>
                Prunes(old(rows), now, victims) && Insertable(old(rows) - victims, c)
                && rows == (old(rows) - victims)[c.id := Insertion(c, at)]
      ensures failure.Some? ==> rows == old(rows)
      ensures failure.None? <==> Admits(old(rows), now, c)
      ensures failure == Some(ResourceLimit) <==> Needed(old(rows)) > |Terminals(old(rows), now)|
      ensures failure.Some? ==> failure.value == ResourceLimit || failure.value == InsertConflict
      ensures failure.None? ==> Installed(rows, c, at) && OthersKept(old(rows), rows, c.id, now)
    {
      var saved := rows;
      var room, inserted;
      room, victims := PruneForInsert(now);
      if !room {
        NoRoomAdmitsNobody(rows, now, c);
        return Some(ResourceLimit), {};
      }
      PrunedDecides(saved, now, c, victims);
      inserted := Insert(c, at);
      if !inserted {
        rows := saved;
        return Some(InsertConflict), {};
      }
      failure := None;
    }

    /** `create`: with or without an If-Match revision. */
    method Create(c: Candidate, now: int, expected: Option<nat>)
        returns (r: Result<nat, Error>, ghost victims: set<nat>)
      modifies this
      ensures r.Ok? ==>
          Step(old(Store()), AdminCredentials.Create(c, now, victims, expected), Store()) && r.value == revision
      ensures r.Err? ==> Store() == old(Store())
      ensures r.Ok? <==> ValidExpiry(c, now) && Matches(old(rows), expected) && Admits(old(rows), now, c)
      ensures r == Err(InvalidExpiry) <==> !ValidExpiry(c, now)
      ensures r == Err(StaleAuthority) <==> ValidExpiry(c, now) && !Matches(old(rows), expected)
      ensures r == Err(ResourceLimit) <==>
                ValidExpiry(c, now) && Matches(old(rows), expected) && Needed(old(rows)) > |Terminals(old(rows), now)|
      ensures r.Err? ==> r.error in {InvalidExpiry, StaleAuthority, ResourceLimit, InsertConflict}
      ensures r == Err(InsertConflict) ==>
          Needed(old(rows)) <= |Terminals(old(rows), now)| && !Admits(old(rows), now, c)
      ensures r.Ok? ==> r.value == old(revision) + 1 && Installed(rows, c, r.value)
      ensures r.Ok? ==> OthersKept(old(rows), rows, c.id, now)
    {
      victims := {};
      if c.expiresAt.Some?
          && (c.expiresAt.value - now < MINIMUM_LIFETIME || c.expiresAt.value - now > MAXIMUM_LIFETIME) {
        return Err(InvalidExpiry), {};
      }
      if expected.Some? {
        var current := QueryAuthorityRevision();
        if current != expected.value {
          return Err(StaleAuthority), {};
        }
      }
      var failure;
      failure, victims := PruneAndInsert(c, now, revision + 1);
      if failure.Some? {
        return Err(failure.value), {};
      }
      revision := revision + 1;
      r := Ok(revision);
    }

    method CountPermanents() returns (n: nat)
      ensures n == |Permanents(rows)|
    {
      n := |Permanents(rows)|;
    }

    /** `Revoke`: an answer of false means the credential was not active and nothing happened. */
    method Revoke(id: nat, now: int) returns (r: Result<bool, Error>)
      modifies this
      ensures r == Ok(true) ==> Step(old(Store()), AdminCredentials.Revoke(id, now), Store())
      ensures r == Ok(true) ==>
                && id in old(rows) && rows == old(rows)[id := rows[id]] && revision == old(revision) + 1
                && old(rows)[id].status == Active && RevokedCopy(old(rows)[id], rows[id], revision)
      ensures r != Ok(true) ==> Store() == old(Store())
      ensures r == Err(NotFound) <==> id !in old(rows)
      ensures r == Ok(false) <==> id in old(rows) && StatusAt(old(rows)[id], now) != SeenActive
      ensures r == Err(LastNonExpiring) <==>
                Permanent(old(rows), id) && forall k :: k != id ==> !Permanent(old(rows), k)
      ensures r.Err? ==> r.error == NotFound || r.error == LastNonExpiring
    {
      if id !in rows {
        return Err(NotFound);
      }
      if StatusAt(rows[id], now) != SeenActive {
        return Ok(false);
      }
      if rows[id].expiresAt.None? {
        var permanents := CountPermanents();
        OnlyPermanent(rows, id);
        if permanents <= 1 {
          return Err(LastNonExpiring);
        }
      }
      revision := revision + 1;
      rows := RevokeRow(rows, id, revision);
      r := Ok(true);
      RevocationStores(old(Store()), AdminCredentials.Revoke(id, now), Store());
    }

    /** `CompleteRotation`, with the clock read once for each of the two rows. */
    method CompleteRotation(oldId: nat, newId: nat, expected: nat, oldNow: int, newNow: int)
        returns (r: Result<nat, Error>)
      modifies this
      ensures r.Ok? ==>
          Step(old(Store()), Rotate(oldId, newId, expected, oldNow, newNow), Store()) && r.value == revision
      ensures r.Err? ==> Store() == old(Store())
      ensures r == Err(StaleAuthority) <==> expected != Authority(old(rows))
      ensures r == Err(RotationConflict) <==>
                expected == Authority(old(rows)) &&
                !(oldId != newId && oldId in old(rows) && newId in old(rows) && Permanent(old(rows), newId)
                  && StatusAt(old(rows)[oldId], oldNow) == SeenActive)
      ensures r.Err? ==> r.error == StaleAuthority || r.error == RotationConflict
      ensures r.Ok? ==>
                && oldId in old(rows) && rows == old(rows)[oldId := rows[oldId]] && r.value == old(revision) + 1
                && old(rows)[oldId].status == Active && RevokedCopy(old(rows)[oldId], rows[oldId], r.value)
    {
      var current := QueryAuthorityRevision();
      if current != expected {
        return Err(StaleAuthority);
      }
      if oldId == newId || oldId !in rows || newId !in rows {
        return Err(RotationConflict);
      }
      if StatusAt(rows[oldId], oldNow) != SeenActive || StatusAt(rows[newId], newNow) != SeenActive
          || rows[newId].expiresAt.Some? {
        return Err(RotationConflict);
      }
      revision := revision + 1;
      rows := RevokeRow(rows, oldId, revision);
      r := Ok(revision);
      RevocationStores(old(Store()), Rotate(oldId, newId, expected, oldNow, newNow), Store());
    }

    /** `Initialize`'s transaction, after the secret was published. */
    method Initialize(c: Candidate) returns (r: Result<nat, Error>)
      requires c.expiresAt.None?
      modifies this
      ensures r.Ok? <==> old(rows) == map[]
      ensures r.Ok? ==> Step(old(Store()), AdminCredentials.Initialize(c), Store()) && r.value == revision
      ensures r.Err? ==> Store() == old(Store()) && r.error == AlreadyInitialized
      ensures r.Ok? ==> r.value == old(revision) + 1 && rows.Keys == {c.id} && Installed(rows, c, r.value)
    {
      if rows != map[] {
        return Err(AlreadyInitialized);
      }
      var inserted := Insert(c, revision + 1);
      revision := revision + 1;
      r := Ok(revision);
    }

    method RevokeEverything(ghost now: int)
      modifies this`rows
      ensures rows == RevokeAll(old(rows), revision + 1) && Needed(rows) <= |Terminals(rows, now)|
    {
      AllTerminal(rows, revision + 1, now);
      rows := RevokeAll(rows, revision + 1);
    }

    /** `Reset`'s transaction: revoke everything, make room, install the new credential. It never
        fails for lack of capacity, because by then every row is revoked. */
    method Reset(c: Candidate, now: int) returns (r: Result<nat, Error>, ghost victims: set<nat>)
      requires c.expiresAt.None?
      modifies this
      ensures r.Ok? ==> Step(old(Store()), AdminCredentials.Reset(c, now, victims), Store()) && r.value == revision
      ensures r.Err? ==> Store() == old(Store())
      ensures r.Ok? <==> old(rows) != map[] && Admits(RevokeAll(old(rows), old(revision) + 1), now, c)
      ensures r == Err(NotInitialized) <==> old(rows) == map[]
      ensures r.Err? ==> r.error == NotInitialized || r.error == InsertConflict
      ensures r == Err(InsertConflict) ==> !Admits(RevokeAll(old(rows), old(revision) + 1), now, c)
      ensures r.Ok? ==> r.value == old(revision) + 1 && Installed(rows, c, r.value)
      ensures r.Ok? ==> OthersRevoked(old(rows), rows, c.id)
    {
      victims := {};
      if rows == map[] {
        return Err(NotInitialized), {};
      }
      var failure;
      failure, victims := RevokeAndInstall(c, now);
      if failure.Some? {
        return Err(failure.value), {};
      }
      revision := revision + 1;
      ResetCommits(old(Store()), c, now, victims, rows);
      r := Ok(revision);
    }

    /** Revoke everything, make room, insert; a failure rolls all of it back. */
    method RevokeAndInstall(c: Candidate, now: int) returns (failure: Option<Error>, ghost victims: set<nat>)
      modifies this`rows
      ensures failure.Some? ==> failure.value == InsertConflict && rows == old(rows)
      ensures var revoked := RevokeAll(old(rows), revision + 1);
        && (failure.None? <==> Admits(revoked, now, c))
        && (failure.None? ==>
              && Prunes(revoked, now, victims) && Insertable(revoked - victims, c)
              && rows == (revoked - victims)[c.id := Insertion(c, revision + 1)])
      ensures failure.None? ==> Installed(rows, c, revision + 1) && OthersRevoked(old(rows), rows, c.id)
    {
      var saved := rows;
      RevokeEverything(now);
      ghost var revoked := rows;
      failure, victims := PruneAndInsert(c, now, revision + 1);
      if failure.Some? {
        rows := saved;
      } else {
        OthersStayRevoked(saved, revoked, rows, c.id, now);
      }
    }
  }

  lemma OnlyPermanent(rows: Table, id: nat)
    requires Permanent(rows, id)
    ensures |Permanents(rows)| <= 1 <==> forall k :: k != id ==> !Permanent(rows, k)
  {
    var others := Permanents(rows) - {id};
    assert Permanents(rows) == others + {id};
    assert |Permanents(rows)| == |others| + 1;
    if others != {} {
      var k :| k in others;
      assert Permanent(rows, k);
    } else {
      forall k: nat | k != id
        ensures !Permanent(rows, k)
      {
        assert k !in others;
      }
    }
  }

  lemma PrefixesDiffer(bearer: string)
    ensures !(ADMIN_PREFIX <= bearer && AGENT_PREFIX <= bearer)
  {
    if ADMIN_PREFIX <= bearer {
      assert bearer[5] == 'd';
    }
    assert AGENT_PREFIX[5] == 'g';
  }

  lemma ResetCommits(db: Db, c: Candidate, now: int, victims: set<nat>, rows: Table)
    requires db.rows != map[] && c.expiresAt.None?
    requires var revoked := RevokeAll(db.rows, db.revision + 1);
      && Prunes(revoked, now, victims) && Insertable(revoked - victims, c)
      && rows == (revoked - victims)[c.id := Insertion(c, db.revision + 1)]
    ensures Step(db, AdminCredentials.Reset(c, now, victims), Db(rows, db.revision + 1))
  {
  }

  /** After a reset's update every row is revoked, so there is always enough to prune. */
  lemma AllTerminal(rows: Table, revision: nat, now: int)
    ensures Needed(RevokeAll(rows, revision)) <= |Terminals(RevokeAll(rows, revision), now)|
  {
    var revoked := RevokeAll(rows, revision);
    assert Terminals(revoked, now) == revoked.Keys;
  }

  lemma ListsStep(before: seq<TerminalCredential>, after: seq<TerminalCredential>, rows: Table, now: int,
      seen: set<nat>, id: nat)
    requires Lists(before, rows, now, seen) && id in rows && id !in seen
    requires after == if Terminal(rows[id], now) then before + [TerminalCredential(id, rows[id].createdAt)] else before
    ensures Lists(after, rows, now, seen + {id})
  {
    forall k | k in seen + {id} && k in rows && Terminal(rows[k], now)
      ensures exists i :: 0 <= i < |after| && after[i].id == k
    {
      if k == id {
        assert after[|before|].id == k;
      } else {
        var i :| 0 <= i < |before| && before[i].id == k;
        assert after[i].id == k;
      }
    }
  }
}

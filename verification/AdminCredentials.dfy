/** Administrator authority as a table: the committed effect of every credential transaction, the
    invariant all of them keep, and what the authority revision proves over whole runs. Identities
    are the numbers their 26 characters spell (`Ulid.IdOrder` shows both orders agree); revisions are
    the numbers their decimal text denotes. */
module AdminCredentials {
  import opened Wrappers

  const LIMIT := 128
  const SECOND := 1_000_000_000
  const MINIMUM_LIFETIME := 300 * SECOND
  const MAXIMUM_LIFETIME := 365 * 24 * 3600 * SECOND

  /** SHA-256 under the verifier domain: a digest that no two bearers share. */
  datatype Verifier = Digest(bearer: string)

  datatype Status = Active | Revoked

  /** One row of `admin_credentials`; no expiry means non-expiring. */
  datatype Row = Row(
    verifier: Verifier,
    fingerprint: nat,
    createdAt: int,
    expiresAt: Option<int>,
    status: Status,
    revision: nat)

  type Table = map<nat, Row>

  /** The table and the gateway-wide revision counter that other subsystems advance too. */
  datatype Db = Db(rows: Table, revision: nat)

  /** A generated credential before it has a revision. */
  datatype Candidate = Candidate(id: nat, bearer: string, fingerprint: nat, createdAt: int, expiresAt: Option<int>)

  // ---- reading rows -----------------------------------------------------------------------

  /** The status a reader sees: an active row past its expiry reads as expired. */
  datatype Seen = SeenActive | SeenExpired | SeenRevoked

  function StatusAt(row: Row, now: int): Seen {
    if row.status.Revoked? then SeenRevoked
    else if row.expiresAt.Some? && now >= row.expiresAt.value then SeenExpired
    else SeenActive
  }

  /** Persisted as active, whatever the clock says. */
  predicate ActiveRow(rows: Table, id: nat) {
    id in rows && rows[id].status.Active?
  }

  predicate Permanent(rows: Table, id: nat) {
    ActiveRow(rows, id) && rows[id].expiresAt.None?
  }

  function Permanents(rows: Table): set<nat> {
    set id | id in rows && Permanent(rows, id)
  }

  predicate Terminal(row: Row, now: int) {
    row.status.Revoked? || (row.expiresAt.Some? && now >= row.expiresAt.value)
  }

  function Terminals(rows: Table, now: int): set<nat> {
    set id | id in rows && Terminal(rows[id], now)
  }

  ghost predicate IsAuthority(rows: Table, r: nat) {
    && (forall id :: id in rows ==> rows[id].revision <= r)
    && if rows == map[] then r == 0 else exists id :: id in rows && rows[id].revision == r
  }

  lemma {:induction false} AuthorityExists(rows: Table)
    ensures exists r: nat :: IsAuthority(rows, r)
    decreases |rows|
  {
    if rows == map[] {
      assert IsAuthority(rows, 0);
    } else {
      var id :| id in rows;
      var rest := rows - {id};
      assert rest.Keys == rows.Keys - {id};
      AuthorityExists(rest);
      var r: nat :| IsAuthority(rest, r);
      assert forall k :: k in rows && k != id ==> k in rest && rest[k] == rows[k];
      if rows[id].revision >= r {
        assert IsAuthority(rows, rows[id].revision);
      } else {
        assert rest != map[];
        var top :| top in rest && rest[top].revision == r;
        assert rows[top].revision == r;
        assert IsAuthority(rows, r);
      }
    }
  }

  /** `SELECT COALESCE(MAX(revision), 0)` over the retained rows. */
  ghost function Authority(rows: Table): (r: nat)
    ensures IsAuthority(rows, r)
  {
    AuthorityExists(rows);
    var r: nat :| IsAuthority(rows, r);
    r
  }

  lemma AuthorityUnique(rows: Table, r: nat)
    requires IsAuthority(rows, r)
    ensures r == Authority(rows)
  {
  }

  // ---- pruning ----------------------------------------------------------------------------

  /** The eviction order: creation time, then identity. */
  predicate Older(rows: Table, a: nat, b: nat)
    requires a in rows && b in rows
  {
    rows[a].createdAt < rows[b].createdAt || (rows[a].createdAt == rows[b].createdAt && a < b)
  }

  function Needed(rows: Table): nat {
    if |rows| < LIMIT then 0 else |rows| - LIMIT + 1
  }

  /** `victims` are exactly as many rows as an insert needs gone, all of them revoked or expired, and
      older than every revoked or expired row that stays. */
  ghost predicate Prunes(rows: Table, now: int, victims: set<nat>) {
    && victims <= Terminals(rows, now) && |victims| == Needed(rows)
    && forall v, t :: v in victims && t in Terminals(rows, now) - victims ==> Older(rows, v, t)
  }

  /** There is only one set of rows the pruning rule can name. */
  lemma PruneIsDetermined(rows: Table, now: int, a: set<nat>, b: set<nat>)
    requires Prunes(rows, now, a) && Prunes(rows, now, b)
    ensures a == b
  {
    assert |a - b| + |a * b| == |a| && |b - a| + |b * a| == |b|;
    assert a * b == b * a;
    if a - b != {} {
      var v, t :| v in a - b && t in b - a;
      NotBothOlder(rows, v, t);
    }
  }

  lemma NotBothOlder(rows: Table, a: nat, b: nat)
    requires a in rows && b in rows
    ensures !(Older(rows, a, b) && Older(rows, b, a))
  {
  }

  // ---- the transactions' committed effects ------------------------------------------------

  function Insertion(c: Candidate, revision: nat): Row {
    Row(Digest(c.bearer), c.fingerprint, c.createdAt, c.expiresAt, Active, revision)
  }

  /** The table's primary key and unique columns admit the candidate. */
  predicate Insertable(rows: Table, c: Candidate) {
    c.id !in rows && forall id :: id in rows ==>
        rows[id].verifier != Digest(c.bearer) && rows[id].fingerprint != c.fingerprint
  }

  function RevokeRow(rows: Table, id: nat, revision: nat): Table
    requires id in rows
  {
    rows[id := rows[id].(status := Revoked, revision := revision)]
  }

  /** `UPDATE ... SET status = 'revoked', revision = ? WHERE status = 'active'` */
  function RevokeAll(rows: Table, revision: nat): Table {
    map id | id in rows ::
      if rows[id].status.Active? then rows[id].(status := Revoked, revision := revision) else rows[id]
  }

  datatype Event =
    | Initialize(c: Candidate)
    | Create(c: Candidate, now: int, victims: set<nat>, expected: Option<nat>)
    | Revoke(id: nat, now: int)
    | Rotate(oldId: nat, newId: nat, ifMatch: nat, oldNow: int, newNow: int)
    | Reset(c: Candidate, now: int, victims: set<nat>)
    | Unrelated(revision: nat)

  /** A committed transaction. A failed one rolls back and is no step at all. */
  ghost predicate Step(db: Db, e: Event, db': Db) {
    match e
    case Initialize(c) =>
      && db.rows == map[] && c.expiresAt.None?
      && db' == Db(map[c.id := Insertion(c, db.revision + 1)], db.revision + 1)
    case Create(c, now, victims, expected) =>
      && (expected.Some? ==> expected.value == Authority(db.rows))
      && Prunes(db.rows, now, victims) && Insertable(db.rows - victims, c)
      && db' == Db((db.rows - victims)[c.id := Insertion(c, db.revision + 1)], db.revision + 1)
    case Revoke(id, now) =>
      && id in db.rows && StatusAt(db.rows[id], now) == SeenActive
      && (db.rows[id].expiresAt.None? ==> |Permanents(db.rows)| > 1)
      && db' == Db(RevokeRow(db.rows, id, db.revision + 1), db.revision + 1)
    case Rotate(oldId, newId, ifMatch, oldNow, newNow) =>
      && ifMatch == Authority(db.rows) && oldId != newId && oldId in db.rows && newId in db.rows
      && StatusAt(db.rows[oldId], oldNow) == SeenActive && StatusAt(db.rows[newId], newNow) == SeenActive
      && db.rows[newId].expiresAt.None?
      && db' == Db(RevokeRow(db.rows, oldId, db.revision + 1), db.revision + 1)
    case Reset(c, now, victims) =>
      && db.rows != map[] && c.expiresAt.None?
      && var revoked := RevokeAll(db.rows, db.revision + 1);
         && Prunes(revoked, now, victims) && Insertable(revoked - victims, c)
         && db' == Db((revoked - victims)[c.id := Insertion(c, db.revision + 1)], db.revision + 1)
    case Unrelated(revision) => revision > db.revision && db' == Db(db.rows, revision)
  }

  // ---- effects, column by column ----------------------------------------------------------

  /** What a reader sees, by the columns. */
  lemma SeenMeans(row: Row, now: int)
    ensures StatusAt(row, now) == SeenActive <==>
              row.status == Active && (row.expiresAt == None || now < row.expiresAt.value)
    ensures StatusAt(row, now) == SeenRevoked <==> row.status == Revoked
  {
  }

  /** Who is permanent, what can be pruned, how many must go and what can be inserted, by the columns. */
  lemma ColumnsDecide(rows: Table, now: int, c: Candidate)
    ensures forall id :: Permanent(rows, id) <==> id in rows && rows[id].status == Active && rows[id].expiresAt == None
    ensures Permanents(rows) == set id | id in rows && rows[id].status == Active && rows[id].expiresAt == None
    ensures Terminals(rows, now) == set id | id in rows && Finished(rows[id], now)
    ensures Needed(rows) == if |rows| <= 127 then 0 else |rows| - 127
    ensures Insertable(rows, c) <==>
              && c.id !in rows
              && forall id :: id in rows ==>
                  rows[id].verifier.bearer != c.bearer && rows[id].fingerprint != c.fingerprint
  {
  }

  /** Pruning by the columns: as many rows as are past 127, each revoked or past its expiry, and each older
      than any such row that stays, by creation time and then by identity. */
  lemma PruneMeans(rows: Table, now: int, victims: set<nat>)
    requires Prunes(rows, now, victims)
    ensures |victims| == if |rows| <= 127 then 0 else |rows| - 127
    ensures forall v :: v in victims ==> v in rows && Finished(rows[v], now)
    ensures forall v, t :: v in victims && t in rows && t !in victims && Finished(rows[t], now) ==>
              rows[v].createdAt < rows[t].createdAt || (rows[v].createdAt == rows[t].createdAt && v < t)
  {
    forall v, t | v in victims && t in rows && t !in victims && Finished(rows[t], now)
      ensures rows[v].createdAt < rows[t].createdAt || (rows[v].createdAt == rows[t].createdAt && v < t)
    {
      assert v in Terminals(rows, now) && t in Terminals(rows, now) - victims;
      assert Older(rows, v, t);
    }
  }

  /** Revoked, or expired by this reading. */
  predicate Finished(row: Row, now: int) {
    row.status == Revoked || (row.expiresAt != None && row.expiresAt.value <= now)
  }

  /** An insertion stores the candidate's digest, fingerprint, creation time and expiry, active, at the new
      revision. */
  lemma InsertionStores(db: Db, e: Event, db': Db)
    requires Step(db, e, db') && (e.Initialize? || e.Create? || e.Reset?)
    ensures db'.revision == db.revision + 1 && e.c.id in db'.rows
    ensures var row := db'.rows[e.c.id];
      && row.verifier.bearer == e.c.bearer && row.fingerprint == e.c.fingerprint && row.createdAt == e.c.createdAt
      && row.expiresAt == e.c.expiresAt && row.status == Active && row.revision == db'.revision
    ensures forall id :: id in db'.rows && id != e.c.id ==> id in db.rows
  {
  }

  /** A create leaves every other row it retains as it was, and drops only rows that are finished. */
  lemma CreateRetains(db: Db, e: Event, db': Db)
    requires Step(db, e, db') && e.Create?
    ensures forall id :: id in db'.rows && id != e.c.id ==> id in db.rows && db'.rows[id] == db.rows[id]
    ensures forall id :: id in db.rows && id !in db'.rows ==> Finished(db.rows[id], e.now)
  {
    PruneMeans(db.rows, e.now, e.victims);
  }

  /** A row as it was, but revoked at this revision. */
  predicate RevokedCopy(before: Row, after: Row, revision: nat) {
    && after.status == Revoked && after.revision == revision && after.verifier == before.verifier
    && after.fingerprint == before.fingerprint && after.createdAt == before.createdAt
    && after.expiresAt == before.expiresAt
  }

  /** A reset leaves every other row it retains revoked, and those revoked before as they were. */
  lemma ResetRetains(db: Db, e: Event, db': Db)
    requires Step(db, e, db') && e.Reset?
    ensures forall id :: id in db'.rows && id != e.c.id ==>
              && id in db.rows && db'.rows[id].status == Revoked
              && (db.rows[id].status == Active ==> RevokedCopy(db.rows[id], db'.rows[id], db'.revision))
              && (db.rows[id].status == Revoked ==> db'.rows[id] == db.rows[id])
  {
  }

  /** Revoking and rotating change one row: it was active and is revoked at the new revision. */
  lemma RevocationStores(db: Db, e: Event, db': Db)
    requires Step(db, e, db') && (e.Revoke? || e.Rotate?)
    ensures var id := if e.Revoke? then e.id else e.oldId;
      && db'.revision == db.revision + 1 && db'.rows.Keys == db.rows.Keys && id in db.rows
      && db.rows[id].status == Active && RevokedCopy(db.rows[id], db'.rows[id], db'.revision)
      && (forall k :: k in db.rows && k != id ==> db'.rows[k] == db.rows[k])
  {
  }

  // ---- the invariant ----------------------------------------------------------------------

  /** No retained revision exceeds the counter. */
  ghost predicate Revisions(db: Db) {
    forall id :: id in db.rows ==> 0 < db.rows[id].revision <= db.revision
  }

  ghost predicate UniqueVerifiers(rows: Table) {
    forall a, b :: a in rows && b in rows && a != b ==>
      rows[a].verifier != rows[b].verifier && rows[a].fingerprint != rows[b].fingerprint
  }

  /** Some credential is active and never expires. */
  ghost predicate Governed(rows: Table) {
    exists id :: Permanent(rows, id)
  }

  ghost predicate Inv(db: Db) {
    |db.rows| <= LIMIT && Revisions(db) && UniqueVerifiers(db.rows)
  }

  lemma InsertKeepsSize(rows: Table, victims: set<nat>, c: Candidate, revision: nat)
    requires |rows| <= LIMIT && victims <= rows.Keys && |victims| == Needed(rows)
    ensures |(rows - victims)[c.id := Insertion(c, revision)]| <= LIMIT
  {
    var kept := rows - victims;
    assert kept.Keys == rows.Keys - victims;
    assert |rows.Keys - victims| == |rows.Keys| - |victims|;
    assert kept[c.id := Insertion(c, revision)].Keys == kept.Keys + {c.id};
  }

  lemma InsertKeepsUnique(rows: Table, victims: set<nat>, c: Candidate, revision: nat)
    requires UniqueVerifiers(rows) && Insertable(rows - victims, c)
    ensures UniqueVerifiers((rows - victims)[c.id := Insertion(c, revision)])
  {
  }

  lemma StepKeepsRevisions(db: Db, e: Event, db': Db)
    requires Revisions(db) && Step(db, e, db')
    ensures Revisions(db')
  {
  }

  lemma PruneShape(rows: Table, now: int, victims: set<nat>)
    requires Prunes(rows, now, victims)
    ensures victims <= rows.Keys && |victims| == Needed(rows)
  {
  }

  lemma StepKeepsSize(db: Db, e: Event, db': Db)
    requires |db.rows| <= LIMIT && Step(db, e, db')
    ensures |db'.rows| <= LIMIT
  {
    match e
    case Initialize(c) =>
    case Create(c, now, victims, _) =>
      PruneShape(db.rows, now, victims);
      InsertKeepsSize(db.rows, victims, c, db'.revision);
    case Revoke(_, _) => assert db'.rows.Keys == db.rows.Keys;
    case Rotate(_, _, _, _, _) => assert db'.rows.Keys == db.rows.Keys;
    case Reset(c, now, victims) =>
      var revoked := RevokeAll(db.rows, db'.revision);
      assert revoked.Keys == db.rows.Keys;
      PruneShape(revoked, now, victims);
      InsertKeepsSize(revoked, victims, c, db'.revision);
    case Unrelated(_) =>
  }

  lemma RevokeKeepsUnique(rows: Table, revoked: Table)
    requires UniqueVerifiers(rows) && revoked.Keys == rows.Keys
    requires forall id :: id in rows ==>
      revoked[id].verifier == rows[id].verifier && revoked[id].fingerprint == rows[id].fingerprint
    ensures UniqueVerifiers(revoked)
  {
  }

  lemma StepKeepsUnique(db: Db, e: Event, db': Db)
    requires UniqueVerifiers(db.rows) && Step(db, e, db')
    ensures UniqueVerifiers(db'.rows)
  {
    match e
    case Initialize(c) =>
    case Create(c, _, victims, _) => InsertKeepsUnique(db.rows, victims, c, db'.revision);
    case Revoke(_, _) => RevokeKeepsUnique(db.rows, db'.rows);
    case Rotate(_, _, _, _, _) => RevokeKeepsUnique(db.rows, db'.rows);
    case Reset(c, _, victims) =>
      var revoked := RevokeAll(db.rows, db'.revision);
      RevokeKeepsUnique(db.rows, revoked);
      InsertKeepsUnique(revoked, victims, c, db'.revision);
    case Unrelated(_) =>
  }

  lemma CreateKeepsGoverned(rows: Table, now: int, victims: set<nat>, c: Candidate, revision: nat)
    requires Governed(rows) && Prunes(rows, now, victims) && c.id !in rows - victims
    ensures Governed((rows - victims)[c.id := Insertion(c, revision)])
  {
    var id :| Permanent(rows, id);
    assert id !in Terminals(rows, now);
    assert Permanent((rows - victims)[c.id := Insertion(c, revision)], id);
  }

  lemma RevokeKeepsGoverned(rows: Table, id: nat, other: nat, revision: nat)
    requires id in rows && Permanent(rows, other) && other != id
    ensures Governed(RevokeRow(rows, id, revision))
  {
    assert Permanent(RevokeRow(rows, id, revision), other);
  }

  lemma AnotherPermanent(rows: Table, id: nat) returns (other: nat)
    requires Governed(rows) && id in rows && (rows[id].expiresAt.None? ==> |Permanents(rows)| > 1)
    ensures Permanent(rows, other) && other != id
  {
    if rows[id].expiresAt.Some? {
      other :| Permanent(rows, other);
    } else {
      var rest := Permanents(rows) - {id};
      assert |rest| >= |Permanents(rows)| - 1;
      other :| other in rest;
    }
  }

  /** Every committed transaction keeps the row bound, unique verifiers and bounded revisions. */
  lemma StepKeepsInv(db: Db, e: Event, db': Db)
    requires Inv(db) && Step(db, e, db')
    ensures Inv(db')
  {
    StepKeepsSize(db, e, db');
    StepKeepsRevisions(db, e, db');
    StepKeepsUnique(db, e, db');
  }

  /** A permanent administrator never disappears; initialization and reset install one. */
  lemma StepKeepsGoverned(db: Db, e: Event, db': Db)
    requires Step(db, e, db') && (Governed(db.rows) || e.Initialize? || e.Reset?)
    ensures Governed(db'.rows)
  {
    match e
    case Initialize(c) =>
      assert Permanent(db'.rows, c.id);
    case Create(c, now, victims, _) =>
      CreateKeepsGoverned(db.rows, now, victims, c, db'.revision);
    case Revoke(id, _) =>
      var other := AnotherPermanent(db.rows, id);
      RevokeKeepsGoverned(db.rows, id, other, db'.revision);
    case Rotate(oldId, newId, _, _, _) =>
      RevokeKeepsGoverned(db.rows, oldId, newId, db'.revision);
    case Reset(c, _, _) =>
      assert Permanent(db'.rows, c.id);
    case Unrelated(_) =>
  }

  // ---- the authority revision -------------------------------------------------------------

  /** Every transaction but an unrelated one leaves the new counter value as the authority revision,
      above the old one, even when pruning removed the row that held the maximum. */
  lemma StepRaisesAuthority(db: Db, e: Event, db': Db)
    requires Inv(db) && Step(db, e, db')
    ensures e.Unrelated? ==> db'.rows == db.rows
    ensures !e.Unrelated? ==> Authority(db'.rows) == db'.revision > Authority(db.rows) && db'.rows != db.rows
  {
    if !e.Unrelated? {
      var touched := if e.Revoke? then e.id else if e.Rotate? then e.oldId else e.c.id;
      assert db'.rows[touched].revision == db'.revision;
      AuthorityUnique(db'.rows, db'.revision);
      assert touched in db.rows ==> db.rows[touched] != db'.rows[touched];
    }
  }

  // ---- runs -------------------------------------------------------------------------------

  /** Consecutive committed transactions. */
  ghost predicate History(dbs: seq<Db>, events: seq<Event>) {
    && |dbs| == |events| + 1 && Inv(dbs[0])
    && forall i :: 0 <= i < |events| ==> Step(dbs[i], events[i], dbs[i + 1])
  }

  lemma {:induction false} HistoryKeepsInv(dbs: seq<Db>, events: seq<Event>, i: nat)
    requires History(dbs, events) && i < |dbs|
    ensures Inv(dbs[i])
  {
    if i > 0 {
      HistoryKeepsInv(dbs, events, i - 1);
      StepKeepsInv(dbs[i - 1], events[i - 1], dbs[i]);
    }
  }

  lemma {:induction false} HistoryKeepsGoverned(dbs: seq<Db>, events: seq<Event>, i: nat, j: nat)
    requires History(dbs, events) && i <= j < |dbs| && Governed(dbs[i].rows)
    ensures Governed(dbs[j].rows)
  {
    if i < j {
      HistoryKeepsGoverned(dbs, events, i, j - 1);
      StepKeepsGoverned(dbs[j - 1], events[j - 1], dbs[j]);
    }
  }

  /** From initialization on there is always a permanent administrator and never a row too many. */
  lemma AlwaysGoverned(dbs: seq<Db>, events: seq<Event>, start: nat, j: nat)
    requires History(dbs, events) && start < j < |dbs| && (events[start].Initialize? || events[start].Reset?)
    ensures Governed(dbs[j].rows) && |dbs[j].rows| <= LIMIT
  {
    HistoryKeepsInv(dbs, events, start);
    HistoryKeepsInv(dbs, events, j);
    StepKeepsGoverned(dbs[start], events[start], dbs[start + 1]);
    HistoryKeepsGoverned(dbs, events, start + 1, j);
  }

  /** From one state to the next the table stays or the authority revision rises. */
  ghost predicate Raises(a: Db, b: Db) {
    b.rows == a.rows || Authority(a.rows) < Authority(b.rows)
  }

  ghost predicate Raising(dbs: seq<Db>) {
    forall i :: 0 <= i < |dbs| - 1 ==> Raises(dbs[i], dbs[i + 1])
  }

  lemma HistoryRaises(dbs: seq<Db>, events: seq<Event>)
    requires History(dbs, events)
    ensures Raising(dbs)
  {
    forall i | 0 <= i < |dbs| - 1
      ensures Raises(dbs[i], dbs[i + 1])
    {
      HistoryKeepsInv(dbs, events, i);
      StepRaisesAuthority(dbs[i], events[i], dbs[i + 1]);
    }
  }

  lemma {:induction false} RaisingGrows(dbs: seq<Db>, i: nat, j: nat)
    requires Raising(dbs) && i <= j < |dbs|
    ensures dbs[j].rows == dbs[i].rows || Authority(dbs[i].rows) < Authority(dbs[j].rows)
  {
    if i < j {
      RaisingGrows(dbs, i, j - 1);
      assert Raises(dbs[j - 1], dbs[j]);
    }
  }

  /** Over whole runs too, the table stays or its authority revision rises. */
  lemma AuthorityGrows(dbs: seq<Db>, events: seq<Event>, i: nat, j: nat)
    requires History(dbs, events) && i <= j < |dbs|
    ensures dbs[j].rows == dbs[i].rows || Authority(dbs[i].rows) < Authority(dbs[j].rows)
  {
    HistoryRaises(dbs, events);
    RaisingGrows(dbs, i, j);
  }

  /** If two reads of the authority revision agree, the table did not change at any point between. */
  lemma SameRevisionSameTable(dbs: seq<Db>, events: seq<Event>, i: nat, k: nat, j: nat)
    requires History(dbs, events) && i <= k <= j < |dbs| && Authority(dbs[i].rows) == Authority(dbs[j].rows)
    ensures dbs[k].rows == dbs[i].rows
  {
    AuthorityGrows(dbs, events, i, k);
    AuthorityGrows(dbs, events, k, j);
  }

  /** A conditional create or a rotation that commits against the revision read at `i` proves that
      nobody changed administrator authority between the read and the commit. */
  lemma ConditionalCommitIsUndisturbed(dbs: seq<Db>, events: seq<Event>, i: nat, k: nat, j: nat)
    requires History(dbs, events) && i <= k <= j < |events|
    requires (events[j].Create? && events[j].expected == Some(Authority(dbs[i].rows)))
          || (events[j].Rotate? && events[j].ifMatch == Authority(dbs[i].rows))
    ensures dbs[k].rows == dbs[i].rows
  {
    assert Step(dbs[j], events[j], dbs[j + 1]);
    SameRevisionSameTable(dbs, events, i, k, j);
  }

  /** The event inserts a row under this identity. */
  predicate Inserts(e: Event, id: nat) {
    (e.Initialize? || e.Create? || e.Reset?) && e.c.id == id
  }

  lemma StepNeverReactivates(db: Db, e: Event, db': Db, id: nat)
    requires Step(db, e, db') && !ActiveRow(db.rows, id) && !Inserts(e, id)
    ensures !ActiveRow(db'.rows, id)
  {
  }

  /** The row does not become active from one state to the next. */
  ghost predicate StaysInactive(a: Db, b: Db, id: nat) {
    !ActiveRow(a.rows, id) ==> !ActiveRow(b.rows, id)
  }

  lemma {:induction false} InactiveChain(dbs: seq<Db>, i: nat, j: nat, id: nat)
    requires i <= j < |dbs| && !ActiveRow(dbs[i].rows, id)
    requires forall k :: i <= k < j ==> StaysInactive(dbs[k], dbs[k + 1], id)
    ensures !ActiveRow(dbs[j].rows, id)
  {
    if i < j {
      InactiveChain(dbs, i, j - 1, id);
      assert StaysInactive(dbs[j - 1], dbs[j], id);
    }
  }

  /** A credential that is not active, revoked or pruned, stays so until its identity is inserted
      anew, which needs both the same millisecond and the same entropy (`Ulid.CollisionMeansSameInputs`). */
  lemma NeverActiveAgain(dbs: seq<Db>, events: seq<Event>, i: nat, j: nat, id: nat)
    requires History(dbs, events) && i <= j < |dbs| && !ActiveRow(dbs[i].rows, id)
    requires forall k :: i <= k < j ==> !Inserts(events[k], id)
    ensures !ActiveRow(dbs[j].rows, id)
  {
    forall k | i <= k < j
      ensures StaysInactive(dbs[k], dbs[k + 1], id)
    {
      if !ActiveRow(dbs[k].rows, id) {
        StepNeverReactivates(dbs[k], events[k], dbs[k + 1], id);
      }
    }
    InactiveChain(dbs, i, j, id);
  }

  /** A retained row keeps its secret, its creation time and its expiry. */
  lemma StepKeepsIdentity(db: Db, e: Event, db': Db, id: nat)
    requires Step(db, e, db') && id in db.rows && id in db'.rows && !Inserts(e, id)
    ensures db'.rows[id].verifier == db.rows[id].verifier && db'.rows[id].createdAt == db.rows[id].createdAt
    ensures db'.rows[id].expiresAt == db.rows[id].expiresAt && db'.rows[id].fingerprint == db.rows[id].fingerprint
  {
  }

  // ---- from creation to acceptance --------------------------------------------------------

  /** The event revokes the credential if it is active. */
  predicate Withdraws(e: Event, id: nat) {
    (e.Revoke? && e.id == id) || (e.Rotate? && e.oldId == id) || e.Reset?
  }

  /** The row is the one this candidate was stored as. */
  predicate StoredAs(row: Row, c: Candidate) {
    row.verifier.bearer == c.bearer && row.expiresAt == c.expiresAt && row.createdAt == c.createdAt
  }

  lemma StepKeepsStored(db: Db, e: Event, db': Db, c: Candidate)
    requires Step(db, e, db') && !Inserts(e, c.id) && c.id in db'.rows
    requires c.id in db.rows && StoredAs(db.rows[c.id], c)
    ensures StoredAs(db'.rows[c.id], c)
    ensures db'.rows[c.id].status == Active <==> db.rows[c.id].status == Active && !Withdraws(e, c.id)
  {
  }

  lemma StepNeverRestores(db: Db, e: Event, db': Db, id: nat)
    requires Step(db, e, db') && !Inserts(e, id) && id in db'.rows
    ensures id in db.rows
  {
  }

  ghost predicate Withdrawn(events: seq<Event>, i: nat, j: nat, id: nat)
    requires i <= j <= |events|
  {
    exists k :: i < k < j && Withdraws(events[k], id)
  }

  lemma {:induction false} StoredUntilWithdrawn(dbs: seq<Db>, events: seq<Event>, i: nat, j: nat)
    requires History(dbs, events) && i < j < |dbs| && (events[i].Initialize? || events[i].Create? || events[i].Reset?)
    requires forall k :: i < k < j ==> !Inserts(events[k], events[i].c.id)
    requires events[i].c.id in dbs[j].rows
    ensures StoredAs(dbs[j].rows[events[i].c.id], events[i].c)
    ensures dbs[j].rows[events[i].c.id].status == Active <==> !Withdrawn(events, i, j, events[i].c.id)
  {
    if j == i + 1 {
      InsertionStores(dbs[i], events[i], dbs[j]);
    } else {
      var c, last := events[i].c, j - 1;
      StepNeverRestores(dbs[last], events[last], dbs[j], c.id);
      StoredUntilWithdrawn(dbs, events, i, last);
      StepKeepsStored(dbs[last], events[last], dbs[j], c);
      WithdrawnGrows(events, i, last, c.id);
    }
  }

  lemma WithdrawnGrows(events: seq<Event>, i: nat, last: nat, id: nat)
    requires i < last < |events|
    ensures Withdrawn(events, i, last + 1, id) <==> Withdrawn(events, i, last, id) || Withdraws(events[last], id)
  {
  }

  lemma StepRetains(db: Db, e: Event, db': Db, id: nat)
    requires Step(db, e, db') && Permanent(db.rows, id) && !Withdraws(e, id) && !e.Initialize?
    ensures id in db'.rows
  {
    if e.Create? {
      CreateRetains(db, e, db');
    }
  }

  /** A credential without expiry is never pruned while nobody withdraws it. */
  lemma {:induction false} PermanentUntilWithdrawn(dbs: seq<Db>, events: seq<Event>, i: nat, j: nat)
    requires History(dbs, events) && i < j < |dbs| && (events[i].Initialize? || events[i].Create? || events[i].Reset?)
    requires forall k :: i < k < j ==> !Inserts(events[k], events[i].c.id)
    requires events[i].c.expiresAt == None && !Withdrawn(events, i, j, events[i].c.id)
    ensures events[i].c.id in dbs[j].rows
  {
    if j == i + 1 {
      InsertionStores(dbs[i], events[i], dbs[j]);
    } else {
      var c, last := events[i].c, j - 1;
      WithdrawnGrows(events, i, last, c.id);
      PermanentUntilWithdrawn(dbs, events, i, last);
      StoredUntilWithdrawn(dbs, events, i, last);
      NotInitialized(dbs, events, last, c.id);
      StepRetains(dbs[last], events[last], dbs[j], c.id);
    }
  }

  lemma NotInitialized(dbs: seq<Db>, events: seq<Event>, k: nat, id: nat)
    requires History(dbs, events) && k < |events| && id in dbs[k].rows
    ensures !events[k].Initialize?
  {
    assert Step(dbs[k], events[k], dbs[k + 1]);
  }

  /** From creation to acceptance: whatever happened since, a reader at time t takes the candidate's bearer
      for its credential exactly while the row is retained, no transaction withdrew it, and it does not
      expire or t is before its expiry; and then takes it for no other. */
  lemma AcceptedUntilWithdrawn(dbs: seq<Db>, events: seq<Event>, i: nat, j: nat, t: int)
    requires History(dbs, events) && i < j < |dbs| && (events[i].Initialize? || events[i].Create? || events[i].Reset?)
    requires forall k :: i < k < j ==> !Inserts(events[k], events[i].c.id)
    ensures var c, rows := events[i].c, dbs[j].rows;
      (c.id in rows && rows[c.id].verifier == Digest(c.bearer) && StatusAt(rows[c.id], t) == SeenActive) <==>
      (c.id in rows && !Withdrawn(events, i, j, c.id) && (c.expiresAt == None || t < c.expiresAt.value))
    ensures var c, rows := events[i].c, dbs[j].rows;
      c.id in rows ==> forall id :: id in rows && id != c.id ==> rows[id].verifier != Digest(c.bearer)
  {
    var c := events[i].c;
    HistoryKeepsInv(dbs, events, j);
    if c.id in dbs[j].rows {
      StoredUntilWithdrawn(dbs, events, i, j);
      SeenMeans(dbs[j].rows[c.id], t);
    }
  }
}

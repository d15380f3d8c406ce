/** Agent principals: the committed effect of every mutation of their table, and what revisions prove
    about a credential binding over whole runs. */
module Principals {
  import opened Wrappers

  const MAX_INT64 := 0x7FFF_FFFF_FFFF_FFFF

  /** `verifier` and `fingerprint` stand for digests of the bearer. */
  datatype Credential = Credential(id: nat, verifier: nat, fingerprint: nat, issued: int)

  /** `wellFormed` stands for what only a damaged file can break: identifiers, words, canonical times and a
      credential slot that is filled or empty as a whole. */
  datatype Principal = Principal(
    active: bool,
    visibility: nat,
    revision: int,
    credentialRevision: int,
    credential: Option<Credential>,
    created: int,
    updated: int,
    wellFormed: bool)

  /** The principals, the authorization revision and the policy it stands for: grants and defaults. */
  datatype Store = Store(rows: map<nat, Principal>, revision: int, policy: nat)

  /** What a lease remembers of the credential it was authenticated with. */
  datatype Binding = Binding(
    principal: nat,
    revision: int,
    visibility: nat,
    credential: nat,
    credentialRevision: int,
    fingerprint: nat)

  datatype Failure =
    | AuthenticationRequired | AuthorizationUnavailable | StaleRevision | Conflict | NotFound | IdentityUnavailable

  function BindingOf(id: nat, p: Principal): Binding
    requires p.credential.Some?
  {
    Binding(id, p.revision, p.visibility, p.credential.value.id, p.credentialRevision, p.credential.value.fingerprint)
  }

  /** `verifyCurrentBindingTx` */
  function Verify(rows: map<nat, Principal>, b: Binding): Result<(), Failure> {
    if b.principal !in rows then Err(AuthenticationRequired)
    else
      var p := rows[b.principal];
      if !p.wellFormed || p.revision < 1 || p.credentialRevision < 0 || p.updated < p.created
         || (p.credential.Some? && p.credentialRevision == 0) then Err(AuthorizationUnavailable)
      else if !p.active || p.credential.None? then
        if p.credential.Some? then Err(AuthorizationUnavailable) else Err(AuthenticationRequired)
      else if p.credential.value.issued < p.created || p.updated < p.credential.value.issued
        then Err(AuthorizationUnavailable)
      else if BindingOf(b.principal, p) != b then Err(AuthenticationRequired)
      else Ok(())
  }

  predicate Current(rows: map<nat, Principal>, b: Binding) {
    Verify(rows, b).Ok?
  }

  /** The checks `loadAuthenticationCandidates` makes of one row. */
  predicate Loads(p: Principal) {
    && p.wellFormed && p.revision >= 1 && p.credentialRevision >= 0 && p.created <= p.updated
    && (p.credential.Some? ==>
          p.credentialRevision != 0 && p.active && p.created <= p.credential.value.issued <= p.updated)
  }

  /** Authentication reads every principal, so one that does not load makes it unavailable to all. */
  predicate Available(rows: map<nat, Principal>) {
    forall id :: id in rows ==> Loads(rows[id])
  }

  // ---- mutations --------------------------------------------------------------------------

  /** Mutations carry the clock reading they store. */
  datatype Mutation =
    | Add(id: nat, visibility: nat, policy: nat, now: int)
    | Issue(id: nat, c: Credential)
    | Revoke(id: nat, now: int)
    | Patch(id: nat, renamed: bool, active: bool, visibility: nat, policy: nat, now: int)
    | Policy(policy: nat)

  /** Some principal already has the identity, the verifier or the fingerprint. */
  predicate Collides(rows: map<nat, Principal>, c: Credential) {
    exists id :: id in rows && rows[id].credential.Some? && Clashes(rows[id].credential.value, c)
  }

  predicate Clashes(a: Credential, b: Credential) {
    a.id == b.id || a.verifier == b.verifier || a.fingerprint == b.fingerprint
  }

  function Issued(p: Principal, c: Credential): Principal {
    p.(revision := p.revision + 1, credentialRevision := p.credentialRevision + 1, credential := Some(c),
        updated := c.issued)
  }

  function Cleared(p: Principal, now: int): Principal {
    p.(revision := p.revision + 1, credentialRevision := p.credentialRevision + 1, credential := None, updated := now)
  }

  function Patched(p: Principal, active: bool, visibility: nat, now: int): Principal {
    var q := if p.active && !active then Cleared(p, now) else p.(revision := p.revision + 1, updated := now);
    q.(active := active, visibility := visibility)
  }

  /** A change of state or of the default policy advances the authorization revision. */
  predicate Advances(s: Store, m: Mutation)
    requires m.Patch? && m.id in s.rows
  {
    m.active != s.rows[m.id].active || m.policy != s.policy
  }

  /** A committed mutation; the table's columns hold signed 64-bit integers and nothing else. */
  ghost predicate Step(s: Store, m: Mutation, s': Store) {
    match m
    case Add(id, visibility, policy, now) =>
      && id !in s.rows && s.revision < MAX_INT64
      && s' == Store(s.rows[id := Principal(true, visibility, 1, 0, None, now, now, true)], s.revision + 1, policy)
    case Issue(id, c) =>
      && id in s.rows && s.rows[id].active && s.rows[id].revision < MAX_INT64 - 1
      && s.rows[id].credentialRevision < MAX_INT64 - 1 && !Collides(s.rows, c)
      && s' == s.(rows := s.rows[id := Issued(s.rows[id], c)])
    case Revoke(id, now) =>
      && id in s.rows && s.rows[id].credential.Some?
      && s.rows[id].revision < MAX_INT64 && s.rows[id].credentialRevision < MAX_INT64
      && s' == s.(rows := s.rows[id := Cleared(s.rows[id], now)])
    case Patch(id, renamed, active, visibility, policy, now) =>
      && id in s.rows && s.rows[id].revision < MAX_INT64
      && (s.rows[id].active && !active ==> s.rows[id].credentialRevision < MAX_INT64)
      && (renamed || visibility != s.rows[id].visibility || Advances(s, m))
      && (Advances(s, m) ==> s.revision < MAX_INT64)
      && s' == Store(s.rows[id := Patched(s.rows[id], active, visibility, now)],
                     if Advances(s, m) then s.revision + 1 else s.revision, policy)
    case Policy(policy) => s.revision < MAX_INT64 && s' == Store(s.rows, s.revision + 1, policy)
  }

  /** The principal whose leases a mutation cancels. */
  function Affected(m: Mutation): Option<nat> {
    match m
    case Issue(id, _) => Some(id)
    case Revoke(id, _) => Some(id)
    case Patch(id, _, _, _, _, _) => Some(id)
    case _ => None
  }

  // ---- what every mutation keeps ----------------------------------------------------------

  /** Revisions fit their columns, and a credential belongs to an active principal. */
  ghost predicate Sound(rows: map<nat, Principal>) {
    forall id :: id in rows ==>
      && rows[id].wellFormed && 1 <= rows[id].revision <= MAX_INT64 && 0 <= rows[id].credentialRevision <= MAX_INT64
      && (rows[id].credential.Some? ==> rows[id].active && rows[id].credentialRevision > 0)
  }

  ghost predicate Distinct(rows: map<nat, Principal>) {
    forall a, b :: a in rows && b in rows && a != b && rows[a].credential.Some? && rows[b].credential.Some? ==>
      && rows[a].credential.value.id != rows[b].credential.value.id
      && rows[a].credential.value.verifier != rows[b].credential.value.verifier
      && rows[a].credential.value.fingerprint != rows[b].credential.value.fingerprint
  }

  ghost predicate Inv(s: Store) {
    Sound(s.rows) && Distinct(s.rows) && 0 <= s.revision <= MAX_INT64
  }

  lemma StepKeepsInv(s: Store, m: Mutation, s': Store)
    requires Inv(s) && Step(s, m, s')
    ensures Inv(s')
  {
    StepKeepsSound(s, m, s');
    StepKeepsDistinct(s, m, s');
  }

  lemma StepKeepsSound(s: Store, m: Mutation, s': Store)
    requires Sound(s.rows) && Step(s, m, s')
    ensures Sound(s'.rows)
  {
  }

  lemma StepKeepsDistinct(s: Store, m: Mutation, s': Store)
    requires Distinct(s.rows) && Step(s, m, s')
    ensures Distinct(s'.rows)
  {
    if m.Issue? {
      assert forall id :: id in s.rows && s.rows[id].credential.Some? ==> !Clashes(s.rows[id].credential.value, m.c);
    }
  }

  /** Times in order: not updated before created, and the credential issued between the two. */
  predicate Timely(p: Principal) {
    p.created <= p.updated && (p.credential.Some? ==> p.created <= p.credential.value.issued <= p.updated)
  }

  /** In a sound table the binding check reports damage exactly when the principal's times are out of
      order; otherwise it holds for the stored binding and asks for authentication of any other. */
  lemma VerifyAnswers(s: Store, b: Binding)
    requires Inv(s)
    ensures Verify(s.rows, b) == Err(AuthorizationUnavailable) <==>
        b.principal in s.rows && !Timely(s.rows[b.principal])
    ensures Verify(s.rows, b).Ok? <==>
              && b.principal in s.rows && Timely(s.rows[b.principal]) && s.rows[b.principal].credential.Some?
              && var p := s.rows[b.principal];
                 && b.revision == p.revision && b.visibility == p.visibility && b.credential == p.credential.value.id
                 && b.credentialRevision == p.credentialRevision && b.fingerprint == p.credential.value.fingerprint
    ensures Verify(s.rows, b).Err? ==> Verify(s.rows, b).error in {AuthenticationRequired, AuthorizationUnavailable}
  {
  }

  /** Authentication loads a sound principal exactly when its times are in order. */
  lemma LoadsWhenTimely(s: Store, id: nat)
    requires Inv(s) && id in s.rows
    ensures Loads(s.rows[id]) <==> Timely(s.rows[id])
  {
  }

  /** What each mutation of a principal stores, column by column; every other principal stays. */
  lemma StepStores(s: Store, m: Mutation, s': Store)
    requires Step(s, m, s') && Affected(m).Some?
    ensures var id := Affected(m).value;
      && id in s.rows && s'.rows.Keys == s.rows.Keys && (forall k :: k in s.rows && k != id ==> s'.rows[k] == s.rows[k])
      && var p, q := s.rows[id], s'.rows[id];
         && q.revision == p.revision + 1 && q.created == p.created
         && (m.Issue? ==> q.credential == Some(m.c) && q.updated == m.c.issued)
         && (m.Revoke? ==> q.credential == None && q.updated == m.now)
         && (m.Patch? ==> q.active == m.active && q.visibility == m.visibility && q.updated == m.now)
         && (m.Patch? ==> q.credential == if p.active && !m.active then None else p.credential)
         && (!m.Patch? ==> q.active == p.active && q.visibility == p.visibility && s'.revision == s.revision)
         && q.credentialRevision ==
              (if m.Patch? && !(p.active && !m.active) then p.credentialRevision else p.credentialRevision + 1)
         && (m.Patch? ==> s'.policy == m.policy)
         && (m.Patch? ==>
              s'.revision == if m.active != p.active || m.policy != s.policy then s.revision + 1 else s.revision)
  {
  }

  /** A new principal is active and has no credential; adding one and changing policy advance the
      authorization revision. */
  lemma PolicyStores(s: Store, m: Mutation, s': Store)
    requires Step(s, m, s') && Affected(m).None?
    ensures s'.revision == s.revision + 1 && s'.policy == m.policy
    ensures m.Policy? ==> s'.rows == s.rows
    ensures m.Add? ==>
      && m.id !in s.rows && s'.rows.Keys == s.rows.Keys + {m.id}
          && (forall k :: k in s.rows ==> s'.rows[k] == s.rows[k])
      && s'.rows[m.id].active && s'.rows[m.id].credential == None && s'.rows[m.id].revision == 1
      && s'.rows[m.id].credentialRevision == 0 && s'.rows[m.id].visibility == m.visibility
      && s'.rows[m.id].created == s'.rows[m.id].updated == m.now
  {
  }

  /** A credential collides exactly with one of the same identity, verifier or fingerprint. */
  lemma CollidesMeans(rows: map<nat, Principal>, c: Credential)
    ensures !Collides(rows, c) <==>
              forall id :: id in rows && rows[id].credential.Some? ==>
                && rows[id].credential.value.id != c.id && rows[id].credential.value.verifier != c.verifier
                && rows[id].credential.value.fingerprint != c.fingerprint
  {
    if !Collides(rows, c) {
      assert forall id :: id in rows && rows[id].credential.Some? ==> !Clashes(rows[id].credential.value, c);
    }
  }

  // ---- the clock --------------------------------------------------------------------------

  /** The reading a mutation stores is not before the principal's creation, nor before the issue of a
      credential that it keeps. */
  predicate InTime(s: Store, m: Mutation) {
    match m
    case Issue(id, c) => id in s.rows && s.rows[id].created <= c.issued
    case Revoke(id, now) => id in s.rows && s.rows[id].created <= now
    case Patch(id, _, active, _, _, now) =>
      && id in s.rows && s.rows[id].created <= now
      && (s.rows[id].credential.Some? && active ==> s.rows[id].credential.value.issued <= now)
    case _ => true
  }

  /** Authentication survives a mutation exactly when the mutation's clock reading is in time: nothing
      clamps it, unlike the audit log's. */
  lemma ClockDecides(s: Store, m: Mutation, s': Store)
    requires Inv(s) && Step(s, m, s') && Available(s.rows)
    ensures Available(s'.rows) <==> InTime(s, m)
  {
    StepKeepsInv(s, m, s');
    if Affected(m).Some? {
      var id := Affected(m).value;
      assert Loads(s.rows[id]);
      TouchedLoads(s, m, s');
      assert forall k :: k in s.rows && k != id ==> s'.rows[k] == s.rows[k];
    }
  }

  lemma TouchedLoads(s: Store, m: Mutation, s': Store)
    requires Inv(s) && Inv(s') && Step(s, m, s') && Affected(m).Some? && Loads(s.rows[Affected(m).value])
    ensures Loads(s'.rows[Affected(m).value]) <==> InTime(s, m)
  {
  }

  /** Issuing a credential while the clock is behind the principal's creation leaves nobody able to
      authenticate, whoever they are. */
  lemma ClockBehindCreation() returns (s: Store, m: Mutation, s': Store)
    ensures Inv(s) && Available(s.rows) && Step(s, m, s') && !Available(s'.rows)
    ensures exists id :: id in s'.rows && id != m.id && s'.rows[id].credential.Some? && Loads(s'.rows[id])
  {
    var c := Credential(7, 7, 7, 20);
    var settled := Principal(true, 0, 2, 1, Some(c), 10, 20, true);
    var recent := Principal(true, 0, 1, 0, None, 100, 100, true);
    s := Store(map[1 := settled, 2 := recent], 1, 0);
    m := Issue(2, Credential(8, 8, 8, 99));
    s' := s.(rows := s.rows[2 := Issued(recent, m.c)]);
    assert s'.rows[1] == settled && !Loads(s'.rows[2]);
  }

  /** A mutation either leaves a principal alone or raises its revision; nothing removes one. The
      mutation's own principal is always raised, and the authorization revision marks every change of
      policy. */
  lemma StepAdvances(s: Store, m: Mutation, s': Store, id: nat)
    requires Step(s, m, s') && id in s.rows
    ensures id in s'.rows && (s'.rows[id] == s.rows[id] || s.rows[id].revision < s'.rows[id].revision)
    ensures Affected(m) == Some(id) ==> s.rows[id].revision < s'.rows[id].revision
    ensures s.revision <= s'.revision && (s.revision == s'.revision ==> s'.policy == s.policy)
  {
  }

  /** Issuing stops short of the last revision so that what it issues can always be revoked. */
  lemma IssuedCanBeRevoked(s: Store, id: nat, c: Credential, s': Store, now: int)
    requires Step(s, Issue(id, c), s')
    ensures exists s'' :: Step(s', Revoke(id, now), s'')
  {
    assert Step(s', Revoke(id, now), s'.(rows := s'.rows[id := Cleared(s'.rows[id], now)]));
  }

  ghost predicate History(stores: seq<Store>, mutations: seq<Mutation>) {
    && |stores| == |mutations| + 1 && Inv(stores[0])
    && forall i :: 0 <= i < |mutations| ==> Step(stores[i], mutations[i], stores[i + 1])
  }

  lemma {:induction false} HistoryAdvances(stores: seq<Store>, mutations: seq<Mutation>, i: nat, j: nat, id: nat)
    requires History(stores, mutations) && i <= j < |stores| && id in stores[i].rows
    ensures id in stores[j].rows
        && (stores[j].rows[id] == stores[i].rows[id] || stores[i].rows[id].revision < stores[j].rows[id].revision)
  {
    if i < j {
      HistoryAdvances(stores, mutations, i, j - 1, id);
      StepAdvances(stores[j - 1], mutations[j - 1], stores[j], id);
    }
  }

  lemma {:induction false} HistoryKeepsInv(stores: seq<Store>, mutations: seq<Mutation>, i: nat)
    requires History(stores, mutations) && i < |stores|
    ensures Inv(stores[i])
  {
    if i > 0 {
      HistoryKeepsInv(stores, mutations, i - 1);
      StepKeepsInv(stores[i - 1], mutations[i - 1], stores[i]);
    }
  }

  ghost predicate AllInTime(stores: seq<Store>, mutations: seq<Mutation>, n: nat)
    requires n <= |mutations| <= |stores|
  {
    forall i :: 0 <= i < n ==> InTime(stores[i], mutations[i])
  }

  ghost predicate AllAvailable(stores: seq<Store>, n: nat)
    requires n < |stores|
  {
    forall i :: 0 <= i <= n ==> Available(stores[i].rows)
  }

  /** Over whole runs: authentication stays available exactly as long as every mutation is in time. */
  lemma {:induction false} AvailableWhileInTime(stores: seq<Store>, mutations: seq<Mutation>, n: nat)
    requires History(stores, mutations) && n < |stores| && Available(stores[0].rows)
    ensures AllAvailable(stores, n) <==> AllInTime(stores, mutations, n)
  {
    if n > 0 {
      AvailableWhileInTime(stores, mutations, n - 1);
      HistoryKeepsInv(stores, mutations, n - 1);
      var last := n - 1;
      assert AllInTime(stores, mutations, n) <==>
          AllInTime(stores, mutations, last) && InTime(stores[last], mutations[last]);
      assert AllAvailable(stores, n) <==> AllAvailable(stores, last) && Available(stores[n].rows);
      if Available(stores[last].rows) {
        ClockDecides(stores[last], mutations[last], stores[n]);
      }
    }
  }

  /** A binding that was current and then was not is never current again, whatever is issued later. */
  lemma NeverCurrentAgain(stores: seq<Store>, mutations: seq<Mutation>, i: nat, k: nat, j: nat, b: Binding)
    requires History(stores, mutations) && i <= k <= j < |stores|
    requires Current(stores[i].rows, b) && !Current(stores[k].rows, b)
    ensures !Current(stores[j].rows, b)
  {
    HistoryAdvances(stores, mutations, i, k, b.principal);
    HistoryAdvances(stores, mutations, k, j, b.principal);
  }

  /** Issuing, revoking or editing retires every binding its principal ever had. */
  lemma MutationRetires(stores: seq<Store>, mutations: seq<Mutation>, i: nat, k: nat, j: nat, b: Binding)
    requires History(stores, mutations) && i <= k < j < |stores|
    requires Current(stores[i].rows, b) && Affected(mutations[k]) == Some(b.principal)
    ensures !Current(stores[j].rows, b)
  {
    HistoryAdvances(stores, mutations, i, k, b.principal);
    StepAdvances(stores[k], mutations[k], stores[k + 1], b.principal);
    HistoryAdvances(stores, mutations, k + 1, j, b.principal);
  }

  // ---- the transactions -------------------------------------------------------------------

  class PrincipalTable {
    var rows: map<nat, Principal>
    var revision: int
    var policy: nat

    ghost function View(): Store
      reads this
    {
      Store(rows, revision, policy)
    }

    constructor (s: Store)
      ensures View() == s
    {
      rows, revision, policy := s.rows, s.revision, s.policy;
    }

    /** `seen` is the row the preflight read before the gate was taken. */
    method IssueCredential(id: nat, expected: int, seen: Option<Principal>, c: Credential)
      returns (r: Result<Principal, Failure>)
      modifies this`rows
      ensures r.Ok? ==> id in rows && r.value == rows[id] && Step(old(View()), Issue(id, c), View())
      ensures r.Err? ==> rows == old(rows)
      ensures r.Ok? <==>
          Foreseen(seen, expected) && Unmoved(old(rows), id, seen) && old(rows)[id].active && !Collides(old(rows), c)
      ensures r.Ok? ==>
                && rows == old(rows)[id := r.value] && r.value.credential == Some(c) && r.value.updated == c.issued
                && r.value.revision == expected + 1
                    && r.value.credentialRevision == old(rows)[id].credentialRevision + 1
                && r.value.active && r.value.visibility == old(rows)[id].visibility
      ensures r == Err(NotFound) <==> seen.None? || (Foreseen(seen, expected) && id !in old(rows))
      ensures r == Err(StaleRevision) <==>
                || (seen.Some? && seen.value.revision != expected)
                || (Foreseen(seen, expected) && id in old(rows) && !Unmoved(old(rows), id, seen))
      ensures r == Err(Conflict) <==>
                || (seen.Some? && seen.value.revision == expected && !Foreseen(seen, expected))
                || (Foreseen(seen, expected) && Unmoved(old(rows), id, seen) && !old(rows)[id].active)
      ensures r.Err? ==> r.error in {NotFound, StaleRevision, Conflict, IdentityUnavailable}
    {
      if seen.None? {
        return Err(NotFound);
      }
      if seen.value.revision != expected {
        return Err(StaleRevision);
      }
      if !seen.value.active || expected >= MAX_INT64 - 1 || seen.value.credentialRevision >= MAX_INT64 - 1 {
        return Err(Conflict);
      }
      if id !in rows {
        return Err(NotFound);
      }
      var p := rows[id];
      if p.revision != expected || p.credentialRevision != seen.value.credentialRevision {
        return Err(StaleRevision);
      }
      if !p.active {
        return Err(Conflict);
      }
      if Collides(rows, c) {
        return Err(IdentityUnavailable);
      }
      p := p.(revision := p.revision + 1, credentialRevision := p.credentialRevision + 1);
      rows := rows[id := p.(credential := Some(c), updated := c.issued)];
      return Ok(rows[id]);
    }

    method RevokeCredential(id: nat, expected: int, now: int) returns (r: Result<Principal, Failure>)
      requires Inv(View())
      modifies this`rows
      ensures Inv(View())
      ensures r.Ok? ==> id in rows && r.value == rows[id] && Step(old(View()), Revoke(id, now), View())
      ensures r.Err? ==> rows == old(rows)
      ensures r.Ok? ==>
                && rows == old(rows)[id := r.value] && r.value.credential == None && r.value.updated == now
                && r.value.revision == expected + 1
                    && r.value.credentialRevision == old(rows)[id].credentialRevision + 1
                && r.value.active == old(rows)[id].active && r.value.visibility == old(rows)[id].visibility
      ensures r == Err(NotFound) <==> id !in old(rows)
      ensures r == Err(StaleRevision) <==> id in old(rows) && old(rows)[id].revision != expected
      ensures r == Err(Conflict) <==>
                && id in old(rows) && old(rows)[id].revision == expected
                && (old(rows)[id].credential.None? || MAX_INT64 in {expected, old(rows)[id].credentialRevision})
      ensures r.Err? ==> r.error in {NotFound, StaleRevision, Conflict}
    {
      if id !in rows {
        return Err(NotFound);
      }
      var p := rows[id];
      if p.revision != expected {
        return Err(StaleRevision);
      }
      if p.credential.None? || p.revision == MAX_INT64 || p.credentialRevision == MAX_INT64 {
        return Err(Conflict);
      }
      ghost var before := View();
      p := p.(revision := p.revision + 1, credentialRevision := p.credentialRevision + 1);
      rows := rows[id := p.(credential := None, updated := now)];
      StepKeepsInv(before, Revoke(id, now), View());
      return Ok(rows[id]);
    }
  }

  /** What the preflight asks of the row it read. */
  predicate Foreseen(seen: Option<Principal>, expected: int) {
    && seen.Some? && seen.value.active && seen.value.revision == expected < MAX_INT64 - 1
    && seen.value.credentialRevision < MAX_INT64 - 1
  }

  /** The transaction finds the revisions the preflight read. */
  predicate Unmoved(rows: map<nat, Principal>, id: nat, seen: Option<Principal>) {
    && seen.Some? && id in rows && rows[id].revision == seen.value.revision
    && rows[id].credentialRevision == seen.value.credentialRevision
  }
}

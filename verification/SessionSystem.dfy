/** Every interleaving of session exchanges, visits, logouts, sweeps, shutdown, credential
    transactions and the notifications these owe. The mutex excludes manager regions from each other
    but not from the database: a credential may be revoked between an exchange's second
    authentication and its insertion. */
module SessionSystem {
  import opened Wrappers
  import C = AdminCredentials
  import S = SessionManager

  /** An exchange that holds a reservation. `Admitting` also holds the mutex: it has authenticated
      under it and not inserted yet. */
  datatype Exchange =
    | Reserved(bearer: string)
    | Admitting(id: string, csrf: string, now: int, parent: nat)
    | Failing

  /** `owed` holds invalidations of committed transactions that have not run; `revoked` remembers which
      credentials were revoked, also after their rows are pruned. */
  datatype State = State(db: C.Db, mgr: S.Manager, exchanges: map<nat, Exchange>, lock: Option<nat>,
                         owed: multiset<Option<nat>>, revoked: set<nat>)

  datatype Action =
    | Begin(t: nat, bearer: string)
    | Enter(t: nat, id: string, csrf: string, now: int, answer: Option<nat>)
    | Insert(t: nat)
    | Release(t: nat)
    | Visit(id: string, now: int, read: S.ParentRead, csrfOk: bool)
    | Logout(id: string)
    | Sweep(now: int, parents: map<string, S.ParentRead>)
    | Shutdown
    | Deliver(n: Option<nat>)
    | Commit(e: C.Event, after: C.Db)

  /** The credentials a transaction revokes. */
  function Revokes(db: C.Db, e: C.Event): set<nat> {
    match e
    case Revoke(id, _) => {id}
    case Rotate(oldId, _, _, _, _) => {oldId}
    case Reset(_, _, _) => set id | id in db.rows && C.ActiveRow(db.rows, id)
    case _ => {}
  }

  /** The invalidations a transaction owes once committed. */
  function Owes(e: C.Event): multiset<Option<nat>> {
    match e
    case Revoke(id, _) => multiset{Some(id)}
    case Rotate(oldId, _, _, _, _) => multiset{Some(oldId)}
    case Reset(_, _, _) => multiset{None}
    case _ => multiset{}
  }

  function Inserted(e: C.Event): set<nat> {
    if e.Initialize? || e.Create? || e.Reset? then {e.c.id} else {}
  }

  /** A lookup may answer with this credential. */
  predicate Authenticates(db: C.Db, bearer: string, id: nat) {
    C.ActiveRow(db.rows, id) && db.rows[id].verifier == C.Digest(bearer)
  }

  ghost predicate Enabled(s: State, a: Action) {
    match a
    case Begin(t, _) => t !in s.exchanges && s.lock.None?
    case Enter(t, _, _, _, answer) =>
      && s.lock.None? && t in s.exchanges && s.exchanges[t].Reserved?
      && (answer.Some? ==> Authenticates(s.db, s.exchanges[t].bearer, answer.value))
    case Insert(t) => s.lock == Some(t) && t in s.exchanges && s.exchanges[t].Admitting?
    case Release(t) => s.lock.None? && t in s.exchanges && !s.exchanges[t].Admitting?
    case Deliver(n) => s.lock.None? && n in s.owed
    case Commit(e, after) => C.Step(s.db, e, after)
    case _ => s.lock.None?
  }

  function Apply(s: State, a: Action): State {
    match a
    case Begin(t, bearer) =>
      var (mgr, e) := S.Reserve(s.mgr);
      if e.Some? then s else s.(mgr := mgr, exchanges := s.exchanges[t := Reserved(bearer)])
    case Enter(t, id, csrf, now, answer) =>
      if s.mgr.shutting || answer.None? then s.(exchanges := s.exchanges[t := Failing])
      else s.(exchanges := s.exchanges[t := Admitting(id, csrf, now, answer.value)], lock := Some(t))
    case Insert(t) =>
      if t !in s.exchanges || !s.exchanges[t].Admitting? then s
      else if s.exchanges[t].id in s.mgr.sessions then s.(exchanges := s.exchanges[t := Failing], lock := None)
      else
        var x := s.exchanges[t];
        s.(mgr := S.Admit(s.mgr, x.id, x.csrf, x.parent, x.now), exchanges := s.exchanges - {t}, lock := None)
    case Release(t) => s.(mgr := S.ReleaseReservation(s.mgr), exchanges := s.exchanges - {t})
    case Visit(id, now, read, csrfOk) => s.(mgr := S.Visit(s.mgr, id, now, read, csrfOk).0)
    case Logout(id) => s.(mgr := S.Logout(s.mgr, id).0)
    case Sweep(now, parents) => s.(mgr := S.CloseAll(s.mgr, S.Swept(s.mgr, now, parents)))
    case Shutdown => s.(mgr := S.Shutdown(s.mgr))
    case Deliver(n) => s.(mgr := S.CloseAll(s.mgr, S.Children(s.mgr, n)), owed := s.owed - multiset{n})
    case Commit(e, after) =>
      s.(db := after, owed := s.owed + Owes(e), revoked := s.revoked + Revokes(s.db, e) - Inserted(e))
  }

  // ---- invariants -------------------------------------------------------------------------

  /** Reservations are the exchanges in flight, and no more than the limit live or are reserved. */
  ghost predicate Accounting(s: State) {
    s.mgr.reserved == |s.exchanges| && |s.mgr.sessions| + s.mgr.reserved <= S.SESSION_LIMIT
  }

  /** The mutex is held exactly by an exchange that is about to insert; after shutdown there is
      neither such an exchange nor a session. */
  ghost predicate Locking(s: State) {
    && (forall t :: t in s.exchanges && s.exchanges[t].Admitting? <==> s.lock == Some(t))
    && (s.mgr.shutting ==> s.lock.None? && s.mgr.sessions == map[])
  }

  /** An invalidation that covers the credential has yet to run. */
  predicate Owed(s: State, id: nat) {
    Some(id) in s.owed || None in s.owed
  }

  /** A session derived from a revoked credential, live or about to be inserted, is one that an
      outstanding invalidation will close. */
  ghost predicate Remembered(s: State) {
    && (forall id :: id in s.revoked ==> !C.ActiveRow(s.db.rows, id))
    && (forall k :: k in s.mgr.sessions && s.mgr.sessions[k].parent in s.revoked ==> Owed(s, s.mgr.sessions[k].parent))
    && (forall t :: t in s.exchanges && s.exchanges[t].Admitting? && s.exchanges[t].parent in s.revoked ==>
         Owed(s, s.exchanges[t].parent))
  }

  ghost predicate Inv(s: State) {
    C.Inv(s.db) && Accounting(s) && Locking(s) && Remembered(s) && S.ChannelLaw(s.mgr)
  }

  /** Everything a manager region other than an exchange's can do to the sessions: some leave, the rest
      keep their parents. */
  ghost predicate Shrinks(m: S.Manager, m': S.Manager) {
    && m'.reserved == m.reserved && m'.sessions.Keys <= m.sessions.Keys && (m.shutting ==> m'.shutting)
    && (m'.shutting && !m.shutting ==> m'.sessions == map[])
    && forall k :: k in m'.sessions ==> Same(m.sessions[k], m'.sessions[k])
  }

  /** The same session, but for when it was last used. */
  predicate Same(a: S.Session, b: S.Session) {
    b.parent == a.parent && b.csrf == a.csrf && b.absoluteExpiry == a.absoluteExpiry && b.done == a.done
  }

  predicate Tidies(a: Action) {
    a.Visit? || a.Logout? || a.Sweep? || a.Shutdown? || a.Deliver?
  }

  lemma TidyingShrinks(s: State, a: Action)
    requires Tidies(a)
    ensures Shrinks(s.mgr, Apply(s, a).mgr) && Apply(s, a).exchanges == s.exchanges && Apply(s, a).lock == s.lock
    ensures Apply(s, a).db == s.db && Apply(s, a).revoked == s.revoked
  {
    if a.Shutdown? && !s.mgr.shutting {
      assert s.mgr.sessions - s.mgr.sessions.Keys == map[];
    }
  }

  lemma FewerSessions(m: S.Manager, m': S.Manager)
    requires m'.sessions.Keys <= m.sessions.Keys
    ensures |m'.sessions| <= |m.sessions|
  {
    assert m'.sessions.Keys + (m.sessions.Keys - m'.sessions.Keys) == m.sessions.Keys;
    assert |m.sessions.Keys| == |m'.sessions.Keys| + |m.sessions.Keys - m'.sessions.Keys|;
  }

  lemma StepKeepsAccounting(s: State, a: Action)
    requires Accounting(s) && Enabled(s, a)
    ensures Accounting(Apply(s, a))
  {
    var s' := Apply(s, a);
    if Tidies(a) {
      TidyingShrinks(s, a);
      FewerSessions(s.mgr, s'.mgr);
    } else if a.Begin? && s' != s {
      assert s'.exchanges.Keys == s.exchanges.Keys + {a.t};
    } else if a.Enter? {
      assert s'.exchanges.Keys == s.exchanges.Keys;
    } else if a.Release? || (a.Insert? && s.exchanges[a.t].id !in s.mgr.sessions) {
      assert s'.exchanges.Keys == s.exchanges.Keys - {a.t};
      assert a.Insert? ==> s'.mgr.sessions.Keys == s.mgr.sessions.Keys + {s.exchanges[a.t].id};
    } else if a.Insert? {
      assert s'.exchanges.Keys == s.exchanges.Keys;
    }
  }

  lemma StepKeepsLocking(s: State, a: Action)
    requires Locking(s) && Enabled(s, a)
    ensures Locking(Apply(s, a))
  {
    if Tidies(a) {
      TidyingShrinks(s, a);
      assert Apply(s, a).mgr.sessions.Keys <= s.mgr.sessions.Keys;
    }
  }

  lemma CommitOwes(s: State, e: C.Event, after: C.Db, id: nat)
    requires C.Step(s.db, e, after) && id in Apply(s, Commit(e, after)).revoked && id !in s.revoked
    ensures Owed(Apply(s, Commit(e, after)), id)
  {
  }

  lemma CommitDeactivates(s: State, e: C.Event, after: C.Db, id: nat)
    requires C.Step(s.db, e, after) && id in Apply(s, Commit(e, after)).revoked
    requires id in s.revoked ==> !C.ActiveRow(s.db.rows, id)
    ensures !C.ActiveRow(after.rows, id)
  {
  }

  lemma CommitKeepsRemembered(s: State, e: C.Event, after: C.Db)
    requires Remembered(s) && C.Step(s.db, e, after)
    ensures Remembered(Apply(s, Commit(e, after)))
  {
    var s' := Apply(s, Commit(e, after));
    forall id | id in s'.revoked
      ensures !C.ActiveRow(after.rows, id) && (id in s.revoked || Owed(s', id))
    {
      CommitDeactivates(s, e, after, id);
      if id !in s.revoked {
        CommitOwes(s, e, after, id);
      }
    }
    assert forall id :: Owed(s, id) ==> Owed(s', id);
  }

  lemma StepKeepsRemembered(s: State, a: Action)
    requires Remembered(s) && Locking(s) && Enabled(s, a)
    ensures Remembered(Apply(s, a))
  {
    if Tidies(a) {
      TidyingShrinks(s, a);
      if a.Deliver? {
        DeliverKeepsRemembered(s, a.n);
      }
    } else if a.Commit? {
      CommitKeepsRemembered(s, a.e, a.after);
    }
  }

  lemma DeliverKeepsRemembered(s: State, n: Option<nat>)
    requires Remembered(s) && Locking(s) && Enabled(s, Deliver(n))
    ensures Remembered(Apply(s, Deliver(n)))
  {
    var s' := Apply(s, Deliver(n));
    forall k | k in s'.mgr.sessions && s'.mgr.sessions[k].parent in s'.revoked
      ensures Owed(s', s'.mgr.sessions[k].parent)
    {
      var p := s.mgr.sessions[k].parent;
      assert k !in S.Children(s.mgr, n);
      assert n != Some(p) && n != None;
      assert Owed(s, p);
    }
  }

  lemma StepKeepsChannels(s: State, a: Action)
    requires S.ChannelLaw(s.mgr) && Enabled(s, a)
    ensures S.ChannelLaw(Apply(s, a).mgr)
  {
    match a
    case Begin(_, _) => assert S.Live(S.Reserve(s.mgr).0) == S.Live(s.mgr);
    case Insert(t) =>
      if s.exchanges[t].id !in s.mgr.sessions {
        var x := s.exchanges[t];
        S.AdmitKeepsChannels(s.mgr, x.id, x.csrf, x.parent, x.now);
      }
    case Release(_) => assert S.Live(S.ReleaseReservation(s.mgr)) == S.Live(s.mgr);
    case Visit(id, now, _, _) =>
      S.CloseAllKeepsChannels(s.mgr, {id});
      if id in s.mgr.sessions {
        S.TouchKeepsChannels(s.mgr, id, now);
      }
    case Logout(id) => S.CloseAllKeepsChannels(s.mgr, {id});
    case Sweep(now, parents) => S.CloseAllKeepsChannels(s.mgr, S.Swept(s.mgr, now, parents));
    case Shutdown => ShutdownKeepsChannels(s.mgr);
    case Deliver(n) => S.CloseAllKeepsChannels(s.mgr, S.Children(s.mgr, n));
    case _ =>
  }

  lemma ShutdownKeepsChannels(m: S.Manager)
    requires S.ChannelLaw(m)
    ensures S.ChannelLaw(S.Shutdown(m))
  {
    var closed := S.CloseAll(m, m.sessions.Keys);
    S.CloseAllKeepsChannels(m, m.sessions.Keys);
    assert S.Live(closed.(shutting := true)) == S.Live(closed);
  }

  lemma StepKeepsInv(s: State, a: Action)
    requires Inv(s) && Enabled(s, a)
    ensures Inv(Apply(s, a))
  {
    StepKeepsAccounting(s, a);
    StepKeepsLocking(s, a);
    StepKeepsRemembered(s, a);
    StepKeepsChannels(s, a);
    if a.Commit? {
      C.StepKeepsInv(s.db, a.e, a.after);
    }
  }

  // ---- runs -------------------------------------------------------------------------------

  /** A fresh manager over any well-formed credential table, then any interleaving. */
  ghost predicate Run(states: seq<State>, actions: seq<Action>) {
    && |states| == |actions| + 1
    && C.Inv(states[0].db) && states[0] == State(states[0].db, S.FRESH, map[], None, multiset{}, {})
    && forall i :: 0 <= i < |actions| ==>
        Enabled(states[i], actions[i]) && states[i + 1] == Apply(states[i], actions[i])
  }

  lemma {:induction false} RunKeepsInv(states: seq<State>, actions: seq<Action>, i: nat)
    requires Run(states, actions) && i < |states|
    ensures Inv(states[i])
  {
    if i > 0 {
      RunKeepsInv(states, actions, i - 1);
      StepKeepsInv(states[i - 1], actions[i - 1]);
    } else {
      assert S.Live(S.FRESH) == {};
    }
  }

  /** Live sessions and reservations never exceed the limit, and reservations are the exchanges in
      flight. */
  lemma WithinCapacity(states: seq<State>, actions: seq<Action>, i: nat)
    requires Run(states, actions) && i < |states|
    ensures |states[i].mgr.sessions| + states[i].mgr.reserved <= S.SESSION_LIMIT
    ensures states[i].mgr.reserved == |states[i].exchanges|
  {
    RunKeepsInv(states, actions, i);
  }

  /** A channel handed out so far was closed exactly once if its session left the map, else never. */
  lemma ChannelsCloseOnce(states: seq<State>, actions: seq<Action>, i: nat, c: nat)
    requires Run(states, actions) && i < |states|
    ensures states[i].mgr.closed[c] == if c < states[i].mgr.nextChannel && c !in S.Live(states[i].mgr) then 1 else 0
  {
    RunKeepsInv(states, actions, i);
  }

  lemma StepKeepsShutting(s: State, a: Action)
    requires s.mgr.shutting
    ensures Apply(s, a).mgr.shutting
  {
    if Tidies(a) {
      TidyingShrinks(s, a);
    }
  }

  lemma StepKeepsRevoked(s: State, a: Action, id: nat)
    requires id in s.revoked && !Reinserts(a, id)
    ensures id in Apply(s, a).revoked
  {
    if Tidies(a) {
      TidyingShrinks(s, a);
    }
  }

  lemma {:induction false} ShuttingStays(states: seq<State>, actions: seq<Action>, i: nat, j: nat)
    requires Run(states, actions) && i <= j < |states| && states[i].mgr.shutting
    ensures states[j].mgr.shutting
  {
    if i < j {
      ShuttingStays(states, actions, i, j - 1);
      StepKeepsShutting(states[j - 1], actions[j - 1]);
    }
  }

  /** Shutdown is final: from it on, no session is live and none is ever added. */
  lemma NoSessionAfterShutdown(states: seq<State>, actions: seq<Action>, i: nat, j: nat)
    requires Run(states, actions) && i < j < |states| && actions[i].Shutdown?
    ensures states[j].mgr.sessions == map[]
  {
    ShuttingStays(states, actions, i + 1, j);
    RunKeepsInv(states, actions, j);
  }

  /** No revocation is forgotten: while a session of a revoked credential is live, an invalidation that
      will close it is still owed. */
  lemma RevocationsAreOwed(states: seq<State>, actions: seq<Action>, i: nat, k: string)
    requires Run(states, actions) && i < |states| && k in states[i].mgr.sessions
    requires states[i].mgr.sessions[k].parent in states[i].revoked
    ensures Owed(states[i], states[i].mgr.sessions[k].parent)
  {
    RunKeepsInv(states, actions, i);
  }

  /** Revoked, with no session derived from it and none on its way in. */
  ghost predicate Quiet(s: State, id: nat) {
    && id in s.revoked && !C.ActiveRow(s.db.rows, id)
    && (forall k :: k in s.mgr.sessions ==> s.mgr.sessions[k].parent != id)
    && (forall t :: t in s.exchanges && s.exchanges[t].Admitting? ==> s.exchanges[t].parent != id)
  }

  predicate Reinserts(a: Action, id: nat) {
    a.Commit? && id in Inserted(a.e)
  }

  lemma QuietStays(s: State, a: Action, id: nat)
    requires Quiet(s, id) && Enabled(s, a) && !Reinserts(a, id)
    ensures Quiet(Apply(s, a), id)
  {
    if Tidies(a) {
      TidyingShrinks(s, a);
    } else if a.Commit? {
      C.StepNeverReactivates(s.db, a.e, a.after, id);
    }
  }

  lemma {:induction false} StaysRevoked(states: seq<State>, actions: seq<Action>, i: nat, j: nat, id: nat)
    requires Run(states, actions) && i <= j < |states| && id in states[i].revoked
    requires forall x :: i <= x < j ==> !Reinserts(actions[x], id)
    ensures id in states[j].revoked
  {
    if i < j {
      StaysRevoked(states, actions, i, j - 1, id);
      StepKeepsRevoked(states[j - 1], actions[j - 1], id);
    }
  }

  lemma {:induction false} StaysQuiet(states: seq<State>, actions: seq<Action>, i: nat, j: nat, id: nat)
    requires Run(states, actions) && i <= j < |states| && Quiet(states[i], id)
    requires forall x :: i <= x < j ==> !Reinserts(actions[x], id)
    ensures Quiet(states[j], id)
  {
    if i < j {
      StaysQuiet(states, actions, i, j - 1, id);
      QuietStays(states[j - 1], actions[j - 1], id);
    }
  }

  lemma DeliveryQuiets(s: State, n: Option<nat>, id: nat)
    requires Inv(s) && Enabled(s, Deliver(n)) && id in s.revoked && (n.None? || n.value == id)
    ensures Quiet(Apply(s, Deliver(n)), id)
  {
  }

  /** Once an invalidation covering a committed revocation has run, no live session has the revoked
      credential as parent, then or later, whatever exchanges were under way. Identities are inserted
      once (`Ulid.CollisionMeansSameInputs`). */
  lemma RevokedParentHasNoSession(states: seq<State>, actions: seq<Action>, c: nat, d: nat, j: nat, id: nat)
    requires Run(states, actions) && c < d < j < |states|
    requires actions[c].Commit? && id in Revokes(states[c].db, actions[c].e)
    requires actions[d] == Deliver(Some(id)) || actions[d] == Deliver(None)
    requires forall x :: c <= x < j ==> !Reinserts(actions[x], id)
    ensures forall k :: k in states[j].mgr.sessions ==> states[j].mgr.sessions[k].parent != id
    ensures !C.ActiveRow(states[j].db.rows, id)
  {
    assert Enabled(states[c], actions[c]) && states[c + 1] == Apply(states[c], actions[c]);
    assert id in states[c + 1].revoked;
    StaysRevoked(states, actions, c + 1, d, id);
    RunKeepsInv(states, actions, d);
    assert Enabled(states[d], actions[d]) && states[d + 1] == Apply(states[d], actions[d]);
    DeliveryQuiets(states[d], actions[d].n, id);
    StaysQuiet(states, actions, d + 1, j, id);
  }

  // ---- where sessions come from and go ----------------------------------------------------

  /** The action inserts a session under this identifier. */
  predicate Admits(s: State, a: Action, k: string) {
    && a.Insert? && a.t in s.exchanges && s.exchanges[a.t].Admitting? && s.exchanges[a.t].id == k
  }

  /** Only an insertion makes a session, and it makes the one its exchange asked for; any other action
      leaves a session as it was but for its last use, or ends it. */
  lemma SessionMoves(s: State, a: Action, k: string)
    requires Enabled(s, a) && k in Apply(s, a).mgr.sessions
    ensures k in s.mgr.sessions ==> Same(s.mgr.sessions[k], Apply(s, a).mgr.sessions[k])
    ensures k !in s.mgr.sessions ==>
              Admits(s, a, k) && var x, session := s.exchanges[a.t], Apply(s, a).mgr.sessions[k];
              && session.parent == x.parent && session.csrf == x.csrf && session.lastActivity == x.now
              && session.absoluteExpiry == x.now + 604_800_000_000_000
  {
    if Tidies(a) {
      TidyingShrinks(s, a);
    }
  }

  lemma LogoutEnds(s: State, k: string)
    ensures k !in Apply(s, Logout(k)).mgr.sessions
  {
  }

  lemma AbsentStays(s: State, a: Action, k: string)
    requires Enabled(s, a) && k !in s.mgr.sessions && !Admits(s, a, k)
    ensures k !in Apply(s, a).mgr.sessions
  {
    if Tidies(a) {
      TidyingShrinks(s, a);
    }
  }

  /** After a logout the identifier names no session until an exchange inserts one under it again. */
  lemma {:induction false} LoggedOutStaysOut(states: seq<State>, actions: seq<Action>, i: nat, j: nat, k: string)
    requires Run(states, actions) && i < j < |states| && actions[i] == Logout(k)
    requires forall x :: i < x < j ==> !Admits(states[x], actions[x], k)
    ensures k !in states[j].mgr.sessions
  {
    if j == i + 1 {
      LogoutEnds(states[i], k);
    } else {
      LoggedOutStaysOut(states, actions, i, j - 1, k);
      AbsentStays(states[j - 1], actions[j - 1], k);
    }
  }

  /** An exchange about to insert has authenticated under the mutex. */
  lemma AdmittingMoves(s: State, a: Action, t: nat)
    requires Enabled(s, a) && t in Apply(s, a).exchanges && Apply(s, a).exchanges[t].Admitting?
    ensures (t in s.exchanges && s.exchanges[t] == Apply(s, a).exchanges[t]) || (a.Enter? && a.t == t)
    ensures !(t in s.exchanges && s.exchanges[t] == Apply(s, a).exchanges[t]) ==>
              && a.answer == Some(Apply(s, a).exchanges[t].parent) && Apply(s, a).exchanges[t].id == a.id
              && Apply(s, a).exchanges[t].csrf == a.csrf && Apply(s, a).exchanges[t].now == a.now
              && t in s.exchanges && s.exchanges[t].Reserved? && !s.mgr.shutting
              && Authenticates(s.db, s.exchanges[t].bearer, a.answer.value)
  {
    if Tidies(a) {
      TidyingShrinks(s, a);
    }
  }

  /** The action authenticates an exchange's bearer, under the mutex, for this session. */
  ghost predicate Grants(s: State, a: Action, k: string, session: S.Session) {
    && a.Enter? && a.id == k && a.csrf == session.csrf && a.answer == Some(session.parent)
    && session.absoluteExpiry == a.now + 604_800_000_000_000
    && a.t in s.exchanges && s.exchanges[a.t].Reserved? && !s.mgr.shutting
    && Authenticates(s.db, s.exchanges[a.t].bearer, session.parent)
  }

  lemma {:induction false} AdmittingOrigin(states: seq<State>, actions: seq<Action>, i: nat, t: nat, k: string,
      session: S.Session)
    returns (j: nat)
    requires Run(states, actions) && i < |states| && t in states[i].exchanges && states[i].exchanges[t].Admitting?
    requires var x := states[i].exchanges[t];
      x.id == k && x.csrf == session.csrf && x.parent == session.parent
          && session.absoluteExpiry == x.now + 604_800_000_000_000
    ensures j < i && Grants(states[j], actions[j], k, session)
  {
    var last := i - 1;
    AdmittingMoves(states[last], actions[last], t);
    if t in states[last].exchanges && states[last].exchanges[t] == states[i].exchanges[t] {
      j := AdmittingOrigin(states, actions, last, t, k, session);
    } else {
      j := last;
    }
  }

  /** Every live session goes back to an exchange whose bearer authenticated as its parent, under the mutex
      and not during shutdown, and lives for a week from the clock reading of that exchange. */
  lemma {:induction false} SessionOrigin(states: seq<State>, actions: seq<Action>, i: nat, k: string) returns (j: nat)
    requires Run(states, actions) && i < |states| && k in states[i].mgr.sessions
    ensures j < i && Grants(states[j], actions[j], k, states[i].mgr.sessions[k])
  {
    var last := i - 1;
    SessionMoves(states[last], actions[last], k);
    if k in states[last].mgr.sessions {
      j := SessionOrigin(states, actions, last, k);
    } else {
      j := AdmittingOrigin(states, actions, last, actions[last].t, k, states[i].mgr.sessions[k]);
    }
  }

  /** A visit that succeeds comes within a week of the exchange that its session goes back to. */
  lemma VisitIsWithinLifetime(states: seq<State>, actions: seq<Action>, i: nat) returns (j: nat)
    requires Run(states, actions) && i < |actions| && actions[i].Visit?
    requires S.Visit(states[i].mgr, actions[i].id, actions[i].now, actions[i].read, actions[i].csrfOk).1 == None
    ensures actions[i].id in states[i].mgr.sessions && j < i
    ensures Grants(states[j], actions[j], actions[i].id, states[i].mgr.sessions[actions[i].id])
    ensures actions[i].now < actions[j].now + 604_800_000_000_000 && actions[i].read.ParentActive? && actions[i].csrfOk
  {
    S.ExpiredMeans(states[i].mgr.sessions[actions[i].id], actions[i].now);
    j := SessionOrigin(states, actions, i, actions[i].id);
  }

  // ---- exchanges succeed ------------------------------------------------------------------

  /** With a free place an exchange gets it; without one, or during shutdown, nothing changes. */
  lemma BeginReserves(s: State, t: nat, bearer: string)
    requires Enabled(s, Begin(t, bearer))
    ensures var s', free := Apply(s, Begin(t, bearer)), !s.mgr.shutting && |s.mgr.sessions| + s.mgr.reserved < 128;
      if free then s'.exchanges == s.exchanges[t := Reserved(bearer)] && s'.mgr.reserved == s.mgr.reserved + 1
      else s' == s
  {
  }

  /** An authenticated exchange takes the mutex with the parent it was answered; any other gives up. */
  lemma EnterDecides(s: State, a: Action)
    requires Enabled(s, a) && a.Enter?
    ensures var s' := Apply(s, a);
      if !s.mgr.shutting && a.answer.Some? then
        s'.lock == Some(a.t) && s'.exchanges == s.exchanges[a.t := Admitting(a.id, a.csrf, a.now, a.answer.value)]
      else s'.lock == None && s'.exchanges == s.exchanges[a.t := Failing]
  {
  }

  /** The insertion turns the reservation into a session unless the identifier is taken. */
  lemma InsertInstalls(s: State, t: nat)
    requires Enabled(s, Insert(t))
    ensures var s', x := Apply(s, Insert(t)), s.exchanges[t];
      && s'.lock == None
      && (x.id !in s.mgr.sessions ==>
            && x.id in s'.mgr.sessions && s'.mgr.sessions[x.id].parent == x.parent
                && s'.mgr.sessions[x.id].csrf == x.csrf
            && t !in s'.exchanges && s'.mgr.reserved == s.mgr.reserved - 1)
      && (x.id in s.mgr.sessions ==> s'.mgr == s.mgr && s'.exchanges == s.exchanges[t := Failing])
  {
  }

  /** A transaction is taken to revoke just the credentials that it finds active and leaves revoked or gone,
      a pruned one that merely expired aside. */
  lemma RevokesExactly(db: C.Db, e: C.Event, after: C.Db, id: nat)
    requires C.Step(db, e, after)
    ensures id in Revokes(db, e) ==> C.ActiveRow(db.rows, id)
    ensures id in Revokes(db, e) && id !in Inserted(e) ==> !C.ActiveRow(after.rows, id)
    ensures C.ActiveRow(db.rows, id) && id in after.rows && !C.ActiveRow(after.rows, id) ==> id in Revokes(db, e)
  {
  }

  // ---- what the other regions do ----------------------------------------------------------

  /** Within its day of idleness and its week in all, in nanoseconds. */
  predicate Unexpired(session: S.Session, now: int) {
    now < session.absoluteExpiry && now < session.lastActivity + 86_400_000_000_000
  }

  /** A sweep ends exactly the expired sessions and those it read an inactive parent of. */
  lemma SweepDecides(s: State, now: int, parents: map<string, S.ParentRead>, k: string)
    ensures var s' := Apply(s, Sweep(now, parents));
      if k in s.mgr.sessions && Unexpired(s.mgr.sessions[k], now) && !(k in parents && parents[k] == S.ParentInactive)
      then k in s'.mgr.sessions && s'.mgr.sessions[k] == s.mgr.sessions[k]
      else k !in s'.mgr.sessions
  {
  }

  /** A delivery ends exactly the sessions of the credential it names, or all; one invalidation less is owed. */
  lemma DeliveryDecides(s: State, n: Option<nat>, k: string)
    ensures var s' := Apply(s, Deliver(n));
      && s'.owed == s.owed - multiset{n}
      && if k in s.mgr.sessions && n.Some? && s.mgr.sessions[k].parent != n.value
         then k in s'.mgr.sessions && s'.mgr.sessions[k] == s.mgr.sessions[k]
         else k !in s'.mgr.sessions
  {
  }

  /** A visit refreshes a session that it may use, ends one that is expired or has lost its parent, and
      otherwise changes nothing; it touches no other. */
  lemma VisitDecides(s: State, a: Action, k: string)
    requires a.Visit? && k in s.mgr.sessions
    ensures var s', session := Apply(s, a), s.mgr.sessions[k];
      if k != a.id || s.mgr.shutting then k in s'.mgr.sessions && s'.mgr.sessions[k] == session
      else if !Unexpired(session, a.now) || a.read == S.ParentInactive then k !in s'.mgr.sessions
      else
        && k in s'.mgr.sessions
        && s'.mgr.sessions[k] == if a.read == S.ParentActive && a.csrfOk then session.(lastActivity := a.now)
          else session
  {
  }

  /** What may happen: with the mutex free, any region may run, a waiting exchange may be answered with any
      credential its bearer authenticates as or with none, and any owed invalidation may be delivered; with
      the mutex held its holder may insert; a transaction may commit at any time. */
  lemma MayHappen(s: State, t: nat, k: string, id: nat, n: Option<nat>, e: C.Event, after: C.Db)
    requires Inv(s)
    ensures s.lock == None ==> Enabled(s, Logout(k)) && Enabled(s, Shutdown) && Enabled(s, Sweep(0, map[]))
    ensures s.lock == None && t !in s.exchanges ==> Enabled(s, Begin(t, k))
    ensures s.lock == None && t in s.exchanges ==> Enabled(s, Release(t))
    ensures s.lock == None && t in s.exchanges && s.exchanges[t].Reserved? ==> Enabled(s, Enter(t, k, k, 0, None))
    ensures (s.lock == None && t in s.exchanges && s.exchanges[t].Reserved? && C.ActiveRow(s.db.rows, id)
             && s.db.rows[id].verifier.bearer == s.exchanges[t].bearer) ==> Enabled(s, Enter(t, k, k, 0, Some(id)))
    ensures s.lock == None && n in s.owed ==> Enabled(s, Deliver(n))
    ensures s.lock == Some(t) ==> Enabled(s, Insert(t))
    ensures C.Step(s.db, e, after) ==> Enabled(s, Commit(e, after))
  {
  }
}

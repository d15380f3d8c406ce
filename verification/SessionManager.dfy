/** In-memory administrator sessions: the regions `SessionManager` runs under its mutex, as functions
    of the manager's fields, and the object whose methods implement them. Authentication answers,
    clock reads and random values are parameters. */
module SessionManager {
  import opened Wrappers

  const SESSION_LIMIT := 128
  const HOUR := 3600 * 1_000_000_000
  const IDLE_LIFETIME := 24 * HOUR
  const ABSOLUTE_LIFETIME := 7 * 24 * HOUR

  datatype Error = SessionLimit | CSRF | ShuttingDown | AuthenticationRequired | DuplicateId | Cancelled

  /** A live session; `done` is the channel its subscribers wait on. */
  datatype Session = Session(csrf: string, parent: nat, lastActivity: int, absoluteExpiry: int, done: nat)

  /** The manager's fields. `closed` counts how often each channel was closed; a second close of one
      channel would panic. */
  datatype Manager = Manager(
    sessions: map<string, Session>,
    reserved: int,
    shutting: bool,
    closed: multiset<nat>,
    nextChannel: nat)

  const FRESH := Manager(map[], 0, false, multiset{}, 0)

  /** What reading a session's parent gave: a cancelled read proves nothing about the parent. */
  datatype ParentRead = ReadCancelled | ParentActive | ParentInactive

  // ---- the regions under the mutex --------------------------------------------------------

  predicate Expired(s: Session, now: int) {
    now >= s.absoluteExpiry || now >= s.lastActivity + IDLE_LIFETIME
  }

  /** A session that a visit finds and that is not expired. */
  predicate Alive(m: Manager, id: string, now: int) {
    id in m.sessions && !m.shutting && !Expired(m.sessions[id], now)
  }

  /** A session lives for a day after its last use and a week in all, in nanoseconds. */
  lemma ExpiredMeans(s: Session, now: int)
    ensures Expired(s, now) <==> s.absoluteExpiry <= now || s.lastActivity + 86_400_000_000_000 <= now
  {
  }

  function Channels(m: Manager, ids: set<string>): set<nat> {
    set id | id in ids && id in m.sessions :: m.sessions[id].done
  }

  /** The sessions of `doomed` leave the map and their channels are closed. */
  function CloseAll(m: Manager, doomed: set<string>): Manager {
    m.(sessions := m.sessions - doomed, closed := m.closed + multiset(Channels(m, doomed)))
  }

  function Reserve(m: Manager): (Manager, Option<Error>) {
    if m.shutting then (m, Some(ShuttingDown))
    else if |m.sessions| + m.reserved >= SESSION_LIMIT then (m, Some(SessionLimit))
    else (m.(reserved := m.reserved + 1), None)
  }

  function ReleaseReservation(m: Manager): Manager {
    m.(reserved := m.reserved - 1)
  }

  /** The insertion that turns a reservation into a session. */
  function Admit(m: Manager, id: string, csrf: string, parent: nat, now: int): Manager {
    m.(sessions := m.sessions[id := Session(csrf, parent, now, now + ABSOLUTE_LIFETIME, m.nextChannel)],
       nextChannel := m.nextChannel + 1, reserved := m.reserved - 1)
  }

  /** The shared shape of `Bootstrap` and `Authenticate`: `csrfOk` is true where no token is asked for. */
  function Visit(m: Manager, id: string, now: int, read: ParentRead, csrfOk: bool): (Manager, Option<Error>) {
    if id !in m.sessions || m.shutting then (m, Some(AuthenticationRequired))
    else if Expired(m.sessions[id], now) then (CloseAll(m, {id}), Some(AuthenticationRequired))
    else if read == ReadCancelled then (m, Some(Cancelled))
    else if read == ParentInactive then (CloseAll(m, {id}), Some(AuthenticationRequired))
    else if !csrfOk then (m, Some(CSRF))
    else (m.(sessions := m.sessions[id := m.sessions[id].(lastActivity := now)]), None)
  }

  function Logout(m: Manager, id: string): (Manager, Option<Error>) {
    if id !in m.sessions then (m, Some(AuthenticationRequired)) else (CloseAll(m, {id}), None)
  }

  /** Sessions a sweep closes: expired ones and those whose parent it read as inactive. */
  function Swept(m: Manager, now: int, parents: map<string, ParentRead>): set<string> {
    set id | id in m.sessions && (Expired(m.sessions[id], now) || (id in parents && parents[id] == ParentInactive))
  }

  function Shutdown(m: Manager): Manager {
    if m.shutting then m else CloseAll(m, m.sessions.Keys).(shutting := true)
  }

  /** Sessions derived from the named credential, or all of them. */
  function Children(m: Manager, credential: Option<nat>): set<string> {
    set id | id in m.sessions && (credential.None? || m.sessions[id].parent == credential.value)
  }

  // ---- channels ---------------------------------------------------------------------------

  function Live(m: Manager): set<nat> {
    set id | id in m.sessions :: m.sessions[id].done
  }

  /** Each live session waits on a channel of its own, and a channel has been closed exactly once if
      its session left the map and never otherwise. */
  ghost predicate ChannelLaw(m: Manager) {
    && (forall a, b :: a in m.sessions && b in m.sessions && m.sessions[a].done == m.sessions[b].done ==> a == b)
    && (forall id :: id in m.sessions ==> m.sessions[id].done < m.nextChannel)
    && (forall c: nat :: m.closed[c] == if c < m.nextChannel && c !in Live(m) then 1 else 0)
  }

  lemma CloseAllKeepsChannels(m: Manager, doomed: set<string>)
    requires ChannelLaw(m)
    ensures ChannelLaw(CloseAll(m, doomed))
  {
    var m' := CloseAll(m, doomed);
    forall c: nat
      ensures m'.closed[c] == if c < m'.nextChannel && c !in Live(m') then 1 else 0
    {
      if c in Channels(m, doomed) {
        var id :| id in doomed && id in m.sessions && m.sessions[id].done == c;
        assert c in Live(m);
        assert c !in Live(m');
      } else {
        LiveOutside(m, doomed, c);
      }
    }
  }

  lemma LiveOutside(m: Manager, doomed: set<string>, c: nat)
    requires c !in Channels(m, doomed)
    ensures c in Live(CloseAll(m, doomed)) <==> c in Live(m)
  {
    if c in Live(m) {
      var id :| id in m.sessions && m.sessions[id].done == c;
      assert id !in doomed;
      assert id in CloseAll(m, doomed).sessions;
    }
  }

  lemma AdmitKeepsChannels(m: Manager, id: string, csrf: string, parent: nat, now: int)
    requires ChannelLaw(m) && id !in m.sessions
    ensures ChannelLaw(Admit(m, id, csrf, parent, now))
  {
    var m' := Admit(m, id, csrf, parent, now);
    assert Live(m') == Live(m) + {m.nextChannel} by {
      assert m'.sessions[id].done == m.nextChannel;
      assert forall k :: k in m.sessions ==> k in m'.sessions && m'.sessions[k] == m.sessions[k];
    }
  }

  lemma TouchKeepsChannels(m: Manager, id: string, now: int)
    requires ChannelLaw(m) && id in m.sessions
    ensures ChannelLaw(m.(sessions := m.sessions[id := m.sessions[id].(lastActivity := now)]))
  {
    var m' := m.(sessions := m.sessions[id := m.sessions[id].(lastActivity := now)]);
    assert forall k :: k in m.sessions ==> m'.sessions[k].done == m.sessions[k].done;
    assert Live(m') == Live(m) by {
      forall c
        ensures c in Live(m) <==> c in Live(m')
      {
        if c in Live(m) {
          var k :| k in m.sessions && m.sessions[k].done == c;
          assert k in m'.sessions && m'.sessions[k].done == c;
        }
      }
    }
  }

  /** Closing one more session extends a batch of closures. */
  lemma CloseOneMore(m: Manager, doomed: set<string>, id: string)
    requires ChannelLaw(m) && id in m.sessions && id !in doomed
    ensures CloseAll(m, doomed + {id}) == CloseAll(CloseAll(m, doomed), {id})
  {
    var first := CloseAll(m, doomed);
    var c := m.sessions[id].done;
    assert id in first.sessions && first.sessions[id] == m.sessions[id];
    assert Channels(m, doomed + {id}) == Channels(m, doomed) + {c};
    assert Channels(first, {id}) == {c};
    assert c !in Channels(m, doomed);
    assert multiset(Channels(m, doomed) + {c}) == multiset(Channels(m, doomed)) + multiset{c};
    assert m.sessions - (doomed + {id}) == (m.sessions - doomed) - {id};
  }

  lemma CloseNobody(m: Manager, id: string)
    requires id !in m.sessions
    ensures CloseAll(m, {id}) == m
  {
    assert Channels(m, {id}) == {};
    assert m.sessions - {id} == m.sessions;
  }

  /** The law speaks of sessions and channels only. */
  lemma SameSessionsKeepChannels(m: Manager, m': Manager)
    requires m'.sessions == m.sessions && m'.closed == m.closed && m'.nextChannel == m.nextChannel
    ensures ChannelLaw(m) <==> ChannelLaw(m')
  {
    assert Live(m) == Live(m');
  }

  lemma CloseNothing(m: Manager, doomed: set<string>)
    requires doomed == {}
    ensures CloseAll(m, doomed) == m
  {
    assert m.sessions - doomed == m.sessions && Channels(m, doomed) == {};
  }

  /** What one turn of a closing loop adds to those before it. */
  lemma VisitOne(m: Manager, chosen: set<string>, unvisited: set<string>, id: string)
    requires ChannelLaw(m) && id in unvisited && unvisited <= m.sessions.Keys
    ensures id in chosen ==> CloseAll(m, chosen - (unvisited - {id})) == CloseAll(CloseAll(m, chosen - unvisited), {id})
    ensures id !in chosen ==> CloseAll(m, chosen - (unvisited - {id})) == CloseAll(m, chosen - unvisited)
  {
    if id in chosen {
      assert chosen - (unvisited - {id}) == (chosen - unvisited) + {id};
      CloseOneMore(m, chosen - unvisited, id);
    } else {
      assert chosen - (unvisited - {id}) == chosen - unvisited;
    }
  }

  // ---- the object -------------------------------------------------------------------------

  class SessionRegistry {
    var sessions: map<string, Session>
    var reserved: int
    var shutting: bool
    var closed: multiset<nat>
    var nextChannel: nat

    ghost function View(): Manager
      reads this
    {
      Manager(sessions, reserved, shutting, closed, nextChannel)
    }

    constructor ()
      ensures View() == FRESH && ChannelLaw(View())
    {
      sessions, reserved, shutting, closed, nextChannel := map[], 0, false, multiset{}, 0;
    }

    /** A place is given exactly while there is one, and then there still are no more than the limit. */
    method DoReserve() returns (e: Option<Error>)
      modifies this`reserved
      ensures (View(), e) == Reserve(old(View()))
      ensures ChannelLaw(old(View())) ==> ChannelLaw(View())
      ensures e == Some(ShuttingDown) <==> shutting
      ensures e == Some(SessionLimit) <==> !shutting && |sessions| + old(reserved) >= SESSION_LIMIT
      ensures e.None? ==> reserved == old(reserved) + 1 && |sessions| + reserved <= SESSION_LIMIT
      ensures e.Some? ==> reserved == old(reserved) && e.value in {ShuttingDown, SessionLimit}
    {
      SameSessionsKeepChannels(View(), View().(reserved := reserved + 1));
      if shutting {
        return Some(ShuttingDown);
      }
      if |sessions| + reserved >= SESSION_LIMIT {
        return Some(SessionLimit);
      }
      reserved := reserved + 1;
      return None;
    }

    method DoRelease()
      modifies this`reserved
      ensures View() == ReleaseReservation(old(View()))
      ensures ChannelLaw(old(View())) ==> ChannelLaw(View())
    {
      SameSessionsKeepChannels(View(), View().(reserved := reserved - 1));
      reserved := reserved - 1;
    }

    /** `exchange` from taking the mutex: `parent` is the answer of the second authentication. */
    method DoAdmit(id: string, csrf: string, now: int, parent: Option<nat>) returns (e: Option<Error>)
      modifies this
      ensures e.None? <==> !old(shutting) && parent.Some? && id !in old(sessions)
      ensures e.None? ==> View() == Admit(old(View()), id, csrf, parent.value, now)
      ensures e.Some? ==> View() == old(View())
      ensures ChannelLaw(old(View())) ==> ChannelLaw(View())
      ensures e == Some(ShuttingDown) <==> old(shutting)
      ensures e == Some(AuthenticationRequired) <==> !old(shutting) && parent.None?
      ensures e == Some(DuplicateId) <==> !old(shutting) && parent.Some? && id in old(sessions)
      ensures e.None? ==>
                && sessions == old(sessions)[id := sessions[id]] && reserved == old(reserved) - 1
                && sessions[id].csrf == csrf && sessions[id].parent == parent.value && sessions[id].lastActivity == now
                && sessions[id].absoluteExpiry == now + 604_800_000_000_000 && closed == old(closed)
    {
      if shutting {
        return Some(ShuttingDown);
      }
      if parent.None? {
        return Some(AuthenticationRequired);
      }
      if id in sessions {
        return Some(DuplicateId);
      }
      if ChannelLaw(View()) {
        AdmitKeepsChannels(View(), id, csrf, parent.value, now);
      }
      sessions := sessions[id := Session(csrf, parent.value, now, now + ABSOLUTE_LIFETIME, nextChannel)];
      nextChannel, reserved := nextChannel + 1, reserved - 1;
      return None;
    }

    /** `closeSession` */
    method DoClose(id: string)
      modifies this`sessions, this`closed
      ensures View() == CloseAll(old(View()), {id})
      ensures ChannelLaw(old(View())) ==> ChannelLaw(View())
    {
      if ChannelLaw(View()) {
        CloseAllKeepsChannels(View(), {id});
      }
      if id !in sessions {
        CloseNobody(View(), id);
        return;
      }
      assert Channels(View(), {id}) == {sessions[id].done};
      closed := closed + multiset{sessions[id].done};
      sessions := sessions - {id};
    }

    /** A visit succeeds exactly with a live session, an active parent and the right token; it ends the
        session exactly if that is expired or its parent is known to be inactive. */
    method DoVisit(id: string, now: int, read: ParentRead, csrfOk: bool) returns (e: Option<Error>)
      modifies this`sessions, this`closed
      ensures (View(), e) == Visit(old(View()), id, now, read, csrfOk)
      ensures ChannelLaw(old(View())) ==> ChannelLaw(View())
      ensures forall k :: k != id ==>
          (k in sessions <==> k in old(sessions)) && (k in sessions ==> sessions[k] == old(sessions)[k])
      ensures e.None? <==> Alive(old(View()), id, now) && read.ParentActive? && csrfOk
      ensures e == Some(Cancelled) <==> Alive(old(View()), id, now) && read.ReadCancelled?
      ensures e == Some(CSRF) <==> Alive(old(View()), id, now) && read.ParentActive? && !csrfOk
      ensures e.None? ==> id in sessions && sessions[id] == old(sessions)[id].(lastActivity := now)
      ensures id in old(sessions) && id !in sessions <==>
                && id in old(sessions) && !shutting
                && (Expired(old(sessions)[id], now) || read.ParentInactive?)
    {
      if id !in sessions || shutting {
        return Some(AuthenticationRequired);
      }
      if Expired(sessions[id], now) {
        DoClose(id);
        return Some(AuthenticationRequired);
      }
      if read == ReadCancelled {
        return Some(Cancelled);
      }
      if read == ParentInactive {
        DoClose(id);
        return Some(AuthenticationRequired);
      }
      if !csrfOk {
        return Some(CSRF);
      }
      if ChannelLaw(View()) {
        TouchKeepsChannels(View(), id, now);
      }
      sessions := sessions[id := sessions[id].(lastActivity := now)];
      return None;
    }

    /** Logging out ends the session, closes its channel once and touches no other. */
    method DoLogout(id: string) returns (e: Option<Error>)
      modifies this`sessions, this`closed
      ensures (View(), e) == Logout(old(View()), id)
      ensures ChannelLaw(old(View())) ==> ChannelLaw(View())
      ensures e.None? <==> id in old(sessions)
      ensures e.None? || (e == Some(AuthenticationRequired) && closed == old(closed))
      ensures id !in sessions && sessions == old(sessions) - {id}
      ensures e.None? ==> closed == old(closed) + multiset{old(sessions)[id].done}
    {
      if id !in sessions {
        return Some(AuthenticationRequired);
      }
      assert Channels(View(), {id}) == {sessions[id].done};
      DoClose(id);
      return None;
    }

    /** The loops of `Sweep`, `Shutdown` and `invalidateCredential`: visit every session once and
        close those chosen. */
    method CloseEach(chosen: set<string>)
      requires ChannelLaw(View()) && chosen <= sessions.Keys
      modifies this`sessions, this`closed
      ensures View() == CloseAll(old(View()), chosen) && ChannelLaw(View())
    {
      ghost var start := View();
      var unvisited := sessions.Keys;
      CloseNothing(start, chosen - unvisited);
      while unvisited != {}
        invariant unvisited <= start.sessions.Keys
        invariant View() == CloseAll(start, chosen - unvisited)
        decreases unvisited
      {
        var id :| id in unvisited;
        VisitOne(start, chosen, unvisited, id);
        if id in chosen {
          DoClose(id);
        }
        unvisited := unvisited - {id};
      }
      assert chosen - {} == chosen;
      CloseAllKeepsChannels(start, chosen);
    }

    method DoSweep(now: int, parents: map<string, ParentRead>)
      requires ChannelLaw(View())
      modifies this`sessions, this`closed
      ensures View() == CloseAll(old(View()), Swept(old(View()), now, parents)) && ChannelLaw(View())
      ensures forall id :: id in sessions <==>
                && id in old(sessions) && now < old(sessions)[id].absoluteExpiry
                && now < old(sessions)[id].lastActivity + 86_400_000_000_000
                && !(id in parents && parents[id] == ParentInactive)
      ensures forall id :: id in sessions ==> sessions[id] == old(sessions)[id]
    {
      CloseEach(set id | id in sessions
          && (Expired(sessions[id], now) || (id in parents && parents[id] == ParentInactive)));
    }

    method DoShutdown()
      requires ChannelLaw(View())
      modifies this`sessions, this`closed, this`shutting
      ensures View() == Shutdown(old(View())) && ChannelLaw(View())
      ensures shutting && (old(shutting) ==> View() == old(View())) && (!old(shutting) ==> sessions == map[])
    {
      if shutting {
        return;
      }
      CloseEach(sessions.Keys);
      SameSessionsKeepChannels(View(), View().(shutting := true));
      shutting := true;
    }

    method DoInvalidate(credential: Option<nat>)
      requires ChannelLaw(View())
      modifies this`sessions, this`closed
      ensures View() == CloseAll(old(View()), Children(old(View()), credential)) && ChannelLaw(View())
      ensures forall id :: id in sessions <==>
                id in old(sessions) && credential.Some? && old(sessions)[id].parent != credential.value
      ensures forall id :: id in sessions ==> sessions[id] == old(sessions)[id]
    {
      CloseEach(set id | id in sessions && (credential.None? || sessions[id].parent == credential.value));
    }
  }
}

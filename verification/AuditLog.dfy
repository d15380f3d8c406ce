/** The append-only audit log: appending under an arbitrary clock, the retention trigger, the validator
    of a stored log, and the question whether an action was ever attempted. */
module AuditLog {
  import opened Wrappers

  const RETENTION := 65536
  const MAX_INT64 := 0x7FFF_FFFF_FFFF_FFFF

  datatype Target = Target(kind: string, id: string)

  /** `canonicalTime` says that the timestamp's text is canonical, and `wellFormed` stands for the validation
      of all other fields but the sequence; timestamps are compared like their fixed-width text. */
  datatype Event = Event(id: string, sequence: int, timestamp: int, category: string, action: string, attempt: bool,
                         outcome: string, actor: string, credential: string, initiator: string, correlation: string,
                         target: Target, canonicalTime: bool, wellFormed: bool)

  /** Retained events in insertion order, the pruned flag and the last sequence ever issued. */
  datatype Log = Log(events: seq<Event>, pruned: bool, issued: int)

  datatype Error = InvalidInput | InvalidState | Unavailable | Duplicate

  const EMPTY := Log([], false, 0)

  // ---- appending --------------------------------------------------------------------------

  /** `historyTx`: the flag and the oldest row make sense. */
  predicate ReadableHistory(log: Log) {
    if log.events == [] then !log.pruned else Scans(log.events[0])
  }

  /** What `ValidateAuditEvent` asks of an event, its sequence aside. */
  predicate Proper(e: Event) {
    e.canonicalTime && e.wellFormed
  }

  predicate Scans(e: Event) {
    Proper(e) && e.sequence >= 1
  }

  /** The newest row, if any, has a timestamp to clamp to. */
  predicate ReadableBoundary(log: Log) {
    0 <= log.issued < MAX_INT64 && (log.events != [] ==> log.events[|log.events| - 1].canonicalTime)
  }

  /** Later than or as late as the newest retained event, whatever the clock said. */
  function Clamp(log: Log, timestamp: int): int {
    if log.events != [] && timestamp < log.events[|log.events| - 1].timestamp
      then log.events[|log.events| - 1].timestamp else timestamp
  }

  predicate HasId(events: seq<Event>, id: string) {
    exists i :: 0 <= i < |events| && events[i].id == id
  }

  /** `DELETE ... WHERE insertion_sequence <= bound` */
  function Retain(events: seq<Event>, bound: int): seq<Event> {
    if events == [] then []
    else if events[0].sequence <= bound then Retain(events[1..], bound)
    else [events[0]] + Retain(events[1..], bound)
  }

  predicate AnyUpTo(events: seq<Event>, bound: int) {
    exists i :: 0 <= i < |events| && events[i].sequence <= bound
  }

  /** The row as inserted. */
  function Stamp(log: Log, e: Event): Event {
    e.(sequence := log.issued + 1, timestamp := Clamp(log, e.timestamp))
  }

  /** The insert and the trigger that fires after it. */
  function Inserted(log: Log, row: Event): Log {
    var all := log.events + [row];
    Log(Retain(all, row.sequence - RETENTION), log.pruned || AnyUpTo(all, row.sequence - RETENTION), row.sequence)
  }

  function Append(log: Log, e: Event): Result<Log, Error> {
    if !Proper(e) then Err(InvalidInput)
    else if !ReadableHistory(log) || !ReadableBoundary(log) then Err(InvalidState)
    else if HasId(log.events, e.id) then Err(Duplicate)
    else Ok(Inserted(log, Stamp(log, e)))
  }

  // ---- what a valid log is ----------------------------------------------------------------

  /** Sequences are contiguous up to the last one issued. */
  ghost predicate Contiguous(log: Log) {
    forall i :: 0 <= i < |log.events| ==> log.events[i].sequence == log.issued - |log.events| + 1 + i
  }

  ghost predicate Chronological(events: seq<Event>) {
    forall i, j :: 0 <= i <= j < |events| ==> events[i].timestamp <= events[j].timestamp
  }

  function Kept(issued: int): int {
    if issued > RETENTION then RETENTION else issued
  }

  /** Everything ever appended is retained, up to the newest 65536; the flag says whether any is gone. */
  ghost predicate Valid(log: Log) {
    && log.issued >= 0 && |log.events| == Kept(log.issued) && (log.pruned <==> log.issued > RETENTION)
    && Contiguous(log) && Chronological(log.events)
    && forall i :: 0 <= i < |log.events| ==> Proper(log.events[i])
  }

  lemma {:induction false} RetainAll(events: seq<Event>, bound: int)
    requires forall i :: 0 <= i < |events| ==> events[i].sequence > bound
    ensures Retain(events, bound) == events
  {
    if events != [] {
      RetainAll(events[1..], bound);
    }
  }

  lemma RetainDropsFirst(all: seq<Event>, bound: int)
    requires all != [] && all[0].sequence == bound
    requires forall i :: 1 <= i < |all| ==> all[i].sequence > bound
    ensures Retain(all, bound) == all[1..] && AnyUpTo(all, bound)
  {
    RetainAll(all[1..], bound);
  }

  /** The trigger drops the first row exactly when there is one too many. */
  lemma InsertedShape(log: Log, row: Event)
    requires log.issued >= 0 && |log.events| == Kept(log.issued) && Contiguous(log) && row.sequence == log.issued + 1
    requires log.pruned <==> log.issued > RETENTION
    ensures var all := log.events + [row];
            var kept := if |all| > RETENTION then all[1..] else all;
            Inserted(log, row) == Log(kept, log.issued >= RETENTION, row.sequence)
  {
    var all := log.events + [row];
    var bound := row.sequence - RETENTION;
    assert forall i :: 0 <= i < |all| ==> all[i].sequence == row.sequence - |all| + 1 + i;
    if |all| > RETENTION {
      RetainDropsFirst(all, bound);
    } else {
      RetainAll(all, bound);
    }
  }

  /** What an append does to a valid log, without the trigger's filtering: the stamped row goes to the
      end, and the first row goes away when there would be one too many. */
  lemma AppendShape(log: Log, e: Event)
    requires Valid(log) && Proper(e) && log.issued < MAX_INT64 && !HasId(log.events, e.id)
    ensures var all := log.events + [Stamp(log, e)];
            var kept := if |all| > RETENTION then all[1..] else all;
            Append(log, e) == Ok(Log(kept, log.issued >= RETENTION, log.issued + 1))
  {
    InsertedShape(log, Stamp(log, e));
  }

  lemma ClampOrders(log: Log, e: Event)
    requires Chronological(log.events)
    ensures Chronological(log.events + [Stamp(log, e)])
  {
    var all := log.events + [Stamp(log, e)];
    forall i, j | 0 <= i <= j < |all|
      ensures all[i].timestamp <= all[j].timestamp
    {
      if i < |log.events| && j == |log.events| {
        assert all[i].timestamp <= log.events[|log.events| - 1].timestamp;
      }
    }
  }

  lemma DropOldest(log: Log)
    requires |log.events| > 0 && Contiguous(log) && Chronological(log.events)
    ensures Contiguous(log.(events := log.events[1..])) && Chronological(log.events[1..])
  {
    forall i | 0 <= i < |log.events[1..]|
      ensures log.events[1..][i].sequence == log.issued - |log.events[1..]| + 1 + i
    {
      assert log.events[1..][i] == log.events[i + 1];
    }
  }

  /** Appending to a valid log, at any clock reading, gives a valid log. */
  lemma AppendKeepsValid(log: Log, e: Event)
    requires Valid(log) && Append(log, e).Ok?
    ensures Valid(Append(log, e).value) && Append(log, e).value.issued == log.issued + 1
  {
    AppendShape(log, e);
    ClampOrders(log, e);
    var all := Log(log.events + [Stamp(log, e)], log.pruned, log.issued + 1);
    RowFollows(log, Stamp(log, e));
    if |all.events| > RETENTION {
      DropOldest(all);
    }
  }

  lemma RowFollows(log: Log, row: Event)
    requires Contiguous(log) && row.sequence == log.issued + 1
    ensures Contiguous(Log(log.events + [row], log.pruned, log.issued + 1))
  {
  }

  /** An append to a valid log fails only for bad input, a repeated identity or an exhausted counter. */
  lemma AppendFails(log: Log, e: Event)
    requires Valid(log)
    ensures Append(log, e).Ok? <==> Proper(e) && !HasId(log.events, e.id) && log.issued < MAX_INT64
  {
  }

  /** What a caller sees of an append to a valid log. */
  lemma AppendOutcome(log: Log, e: Event)
    ensures Valid(log) ==> (Append(log, e).Ok? <==> Proper(e) && !HasId(log.events, e.id) && log.issued < MAX_INT64)
    ensures Valid(log) && Append(log, e).Ok? ==>
              var log' := Append(log, e).value;
              Valid(log') && log'.events != [] && log'.events[|log'.events| - 1] == Stamp(log, e)
  {
    if Valid(log) {
      AppendFails(log, e);
      if Append(log, e).Ok? {
        AppendKeepsValid(log, e);
        AppendShape(log, e);
      }
    }
  }

  // ---- whole histories --------------------------------------------------------------------

  /** Consecutive successful appends, from an empty log, of events whose timestamps are whatever the
      clock gave. Failed appends leave the log alone. */
  ghost predicate Run(logs: seq<Log>, inputs: seq<Event>) {
    && |logs| == |inputs| + 1 && logs[0] == EMPTY
    && forall i :: 0 <= i < |inputs| ==> Append(logs[i], inputs[i]) == Ok(logs[i + 1])
  }

  function Latest(inputs: seq<Event>, n: nat): int
    requires 0 < n <= |inputs|
  {
    if n == 1 || inputs[n - 1].timestamp >= Latest(inputs, n - 1) then inputs[n - 1].timestamp
      else Latest(inputs, n - 1)
  }

  /** The n-th event appended: its sequence is n and its timestamp the latest clock reading so far. */
  function Recorded(inputs: seq<Event>, n: nat): Event
    requires 0 < n <= |inputs|
  {
    inputs[n - 1].(sequence := n, timestamp := Latest(inputs, n))
  }

  /** The log holds exactly the newest appends, as recorded. */
  ghost predicate Holds(log: Log, inputs: seq<Event>, n: nat)
    requires n <= |inputs|
  {
    log.issued == n && |log.events| == Kept(n) && Tail(log.events, inputs, n)
  }

  lemma StampRecords(log: Log, inputs: seq<Event>, n: nat)
    requires n < |inputs| && Holds(log, inputs, n)
    ensures Stamp(log, inputs[n]) == Recorded(inputs, n + 1)
  {
    if n > 0 {
      assert log.events[|log.events| - 1] == Recorded(inputs, n);
    }
  }

  /** The events are the appends that end with the n-th. */
  ghost predicate Tail(events: seq<Event>, inputs: seq<Event>, n: nat)
    requires |events| <= n <= |inputs|
  {
    forall i :: 0 <= i < |events| ==> events[i] == Recorded(inputs, n - |events| + 1 + i)
  }

  lemma TailGrows(events: seq<Event>, inputs: seq<Event>, n: nat)
    requires |events| <= n < |inputs| && Tail(events, inputs, n)
    ensures Tail(events + [Recorded(inputs, n + 1)], inputs, n + 1)
  {
  }

  lemma TailDrops(events: seq<Event>, inputs: seq<Event>, n: nat)
    requires 0 < |events| <= n <= |inputs| && Tail(events, inputs, n)
    ensures Tail(events[1..], inputs, n)
  {
  }

  lemma AppendHolds(log: Log, inputs: seq<Event>, n: nat)
    requires n < |inputs| && Valid(log) && Holds(log, inputs, n) && Append(log, inputs[n]).Ok?
    ensures Holds(Append(log, inputs[n]).value, inputs, n + 1)
  {
    StampRecords(log, inputs, n);
    AppendShape(log, inputs[n]);
    TailGrows(log.events, inputs, n);
    var all := log.events + [Recorded(inputs, n + 1)];
    if |all| > RETENTION {
      TailDrops(all, inputs, n + 1);
    }
  }

  /** After any run of appends under any clock the log is valid, holds exactly the newest 65536 events
      as recorded, and says it is pruned exactly when more than that were ever appended. */
  lemma {:induction false} RunIsValid(logs: seq<Log>, inputs: seq<Event>, n: nat)
    requires Run(logs, inputs) && n < |logs|
    ensures Valid(logs[n]) && Holds(logs[n], inputs, n) && (logs[n].pruned <==> n > RETENTION)
  {
    if n > 0 {
      RunIsValid(logs, inputs, n - 1);
      assert Append(logs[n - 1], inputs[n - 1]) == Ok(logs[n]);
      AppendKeepsValid(logs[n - 1], inputs[n - 1]);
      AppendHolds(logs[n - 1], inputs, n - 1);
    }
  }

  // ---- was it ever attempted? -------------------------------------------------------------

  predicate IsAttempt(e: Event, category: string, action: string) {
    e.category == category && e.action == action && e.attempt
  }

  /** `AttemptedTx` */
  function Attempted(log: Log, category: string, action: string): Result<bool, Error> {
    if category == "" || action == "" then Err(InvalidInput)
    else if !ReadableHistory(log) then Err(InvalidState)
    else if log.pruned then Err(Unavailable)
    else Ok(exists i :: 0 <= i < |log.events| && IsAttempt(log.events[i], category, action))
  }

  /** An answer covers all of history: it is yes exactly when some append ever recorded an attempt.
      There is no answer exactly when events are gone. */
  lemma AttemptedCoversHistory(logs: seq<Log>, inputs: seq<Event>, n: nat, category: string, action: string)
    requires Run(logs, inputs) && n < |logs| && category != "" && action != ""
    ensures Attempted(logs[n], category, action).Err? <==> n > RETENTION
    ensures n <= RETENTION ==>
              var ever :=
                exists k :: 0 <= k < n && inputs[k].category == category && inputs[k].action == action
                    && inputs[k].attempt;
              Attempted(logs[n], category, action) == Ok(ever)
  {
    RunIsValid(logs, inputs, n);
    if n <= RETENTION {
      assert forall i :: 0 <= i < n ==> logs[n].events[i] == Recorded(inputs, i + 1);
      assert forall i :: 0 <= i < n ==>
          IsAttempt(logs[n].events[i], category, action) == IsAttempt(inputs[i], category, action);
    }
  }

  // ---- the store --------------------------------------------------------------------------

  /** The row is the event as given, next in sequence, and no earlier than the newest row. */
  predicate Recording(events: seq<Event>, issued: int, e: Event, row: Event) {
    && row == e.(sequence := row.sequence, timestamp := row.timestamp) && row.sequence == issued + 1
    && row.timestamp ==
         if events != [] && e.timestamp < events[|events| - 1].timestamp then events[|events| - 1].timestamp
           else e.timestamp
  }

  /** No append goes on top of a log whose flag, oldest row, counter or newest time make no sense. */
  predicate Damaged(log: Log) {
    || (log.events == [] && log.pruned)
    || log.issued < 0 || log.issued >= 0x7FFF_FFFF_FFFF_FFFF
    || (log.events != [] &&
          (|| !log.events[0].canonicalTime || !log.events[0].wellFormed || log.events[0].sequence < 1
           || !log.events[|log.events| - 1].canonicalTime))
  }

  class AuditStore {
    var events: seq<Event>
    var pruned: bool
    var issued: int

    ghost function View(): Log
      reads this
    {
      Log(events, pruned, issued)
    }

    constructor (log: Log)
      ensures View() == log
    {
      events, pruned, issued := log.events, log.pruned, log.issued;
    }

    method AppendTx(e: Event) returns (r: Result<Event, Error>)
      modifies this
      ensures match Append(old(View()), e) {
                case Ok(log) => View() == log && r == Ok(Stamp(old(View()), e))
                case Err(error) => View() == old(View()) && r == Err(error)
              }
      ensures Valid(old(View())) ==> Valid(View())
      ensures Valid(old(View())) ==> (r.Ok? <==> Proper(e) && !HasId(old(events), e.id) && old(issued) < MAX_INT64)
      ensures Valid(old(View())) && r.Ok? ==>
                && issued == old(issued) + 1 && events != [] && events[|events| - 1] == r.value
                && r.value.sequence == issued && r.value.timestamp >= e.timestamp
      ensures r.Ok? ==> Recording(old(events), old(issued), e, r.value)
      ensures r == Err(InvalidInput) <==> !(e.canonicalTime && e.wellFormed)
      ensures r == Err(InvalidState) <==> e.canonicalTime && e.wellFormed && Damaged(old(View()))
      ensures r == Err(Duplicate) <==>
                && e.canonicalTime && e.wellFormed && !Damaged(old(View()))
                && exists i :: 0 <= i < |old(events)| && old(events)[i].id == e.id
      ensures r.Err? ==> r.error in {InvalidInput, InvalidState, Duplicate}
    {
      AppendOutcome(View(), e);
      if !Proper(e) {
        return Err(InvalidInput);
      }
      if !(if events == [] then !pruned else Scans(events[0])) {
        return Err(InvalidState);
      }
      if issued < 0 || issued >= MAX_INT64 || (events != [] && !events[|events| - 1].canonicalTime) {
        return Err(InvalidState);
      }
      if HasId(events, e.id) {
        return Err(Duplicate);
      }
      var row := e.(sequence := issued + 1);
      if events != [] && row.timestamp < events[|events| - 1].timestamp {
        row := row.(timestamp := events[|events| - 1].timestamp);
      }
      events, issued := events + [row], issued + 1;
      pruned := pruned || AnyUpTo(events, row.sequence - RETENTION);
      events := Retain(events, row.sequence - RETENTION);
      return Ok(row);
    }

    /** `ValidateTx`: one pass over at most one row more than may be retained. */
    method ValidateTx() returns (ok: bool)
      ensures ok <==> Valid(View())
    {
      if !(if events == [] then !pruned else Scans(events[0])) {
        HistoryReadable(View());
        return false;
      }
      var limit := if |events| > RETENTION + 1 then RETENTION + 1 else |events|;
      var count, lastSequence := 0, 0;
      while count < limit
        invariant 0 <= count <= limit && count <= RETENTION
        invariant forall i :: 0 <= i < count ==> Scans(events[i]) && events[i].sequence == lastSequence - count + 1 + i
        invariant count == 0 ==> lastSequence == 0
        invariant Chronological(events[..count])
      {
        var e := events[count];
        if !Scans(e) || (count > 0 && (e.sequence != lastSequence + 1 || e.timestamp < events[count - 1].timestamp)) {
          BadRow(View(), count);
          return false;
        }
        ChronologicalGrows(events, count);
        lastSequence, count := e.sequence, count + 1;
        if count > RETENTION {
          return false;
        }
      }
      assert events[..count] == events;
      ok := !(lastSequence != issued || pruned != (issued > RETENTION) || (!pruned && count != issued)
          || (pruned && count != RETENTION));
    }
  }

  lemma HistoryReadable(log: Log)
    ensures Valid(log) ==> ReadableHistory(log)
  {
  }

  lemma BadRow(log: Log, k: nat)
    requires k < |log.events|
    ensures Valid(log) ==> Scans(log.events[k])
    ensures Valid(log) && k > 0 ==>
        log.events[k].sequence == log.events[k - 1].sequence + 1
            && log.events[k].timestamp >= log.events[k - 1].timestamp
  {
  }

  lemma ChronologicalGrows(events: seq<Event>, k: nat)
    requires k < |events| && Chronological(events[..k]) && (k > 0 ==> events[k - 1].timestamp <= events[k].timestamp)
    ensures Chronological(events[..k + 1])
  {
    var grown := events[..k + 1];
    forall i, j | 0 <= i <= j < |grown|
      ensures grown[i].timestamp <= grown[j].timestamp
    {
      if i < k && j == k {
        assert events[..k][i].timestamp <= events[..k][k - 1].timestamp;
      } else if j < k {
        assert events[..k][i].timestamp <= events[..k][j].timestamp;
      }
    }
  }
}

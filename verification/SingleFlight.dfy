/** Any number of concurrent `compileConstraint` calls over one cache, in any interleaving of their
    critical sections. `compile` is an arbitrary deterministic compiler; the system refines calling
    it directly. */
module SingleFlight {
  import opened Wrappers
  import opened ConstraintCache

  /** A deterministic compiler, given by what it answers. */
  datatype Compiler = Compiler(answers: imap<string, Outcome>, otherwise: Outcome)

  function Compile(compile: Compiler, source: string): Outcome {
    if source in compile.answers then compile.answers[source] else compile.otherwise
  }

  datatype Answer = Answered(outcome: Outcome) | TooLong | FlightLimit

  /** Where a call stands between its critical sections. */
  datatype Call =
    | Compiling(source: string, flight: nat)
    | Waiting(source: string, flight: nat)
    | Finished(source: string, answer: Answer)

  /** `flightSource` remembers which source a flight was opened for and `leader` which call opened
      the flight of a source; no step reads them. */
  datatype System = System(
    cache: Cache,
    calls: map<nat, Call>,
    flightSource: map<nat, string>,
    leader: map<string, nat>)

  const INITIAL := System(EMPTY_CACHE, map[], map[], map[])

  datatype Step = Arrive(id: nat, source: string) | Settle(id: nat) | Wake(id: nat)

  // ---- steps ------------------------------------------------------------------------------

  ghost function Arrived(s: System, id: nat, source: string): System {
    if |source| > MAX_SOURCE_BYTES then s.(calls := s.calls[id := Finished(source, TooLong)])
    else
      var (cache, entered) := Enter(s.cache, source);
      match entered
      case Hit(compiled) => s.(calls := s.calls[id := Finished(source, Answered(Ok(compiled)))])
      case Joined(flight) => s.(calls := s.calls[id := Waiting(source, flight)])
      case Saturated => s.(calls := s.calls[id := Finished(source, FlightLimit)])
      case Started(flight) =>
        System(cache, s.calls[id := Compiling(source, flight)], s.flightSource[flight := source],
            s.leader[source := id])
  }

  /** A step of a call that is not where the step needs it to be changes nothing. */
  ghost function Apply(compile: Compiler, s: System, step: Step): System {
    match step
    case Arrive(id, source) => if id in s.calls then s else Arrived(s, id, source)
    case Settle(id) =>
      if id in s.calls && s.calls[id].Compiling? && s.calls[id].source in s.cache.flights then
        var source := s.calls[id].source;
        s.(cache := Finish(s.cache, source, Compile(compile, source)),
           calls := s.calls[id := Finished(source, Answered(Compile(compile, source)))],
           leader := s.leader - {source})
      else s
    case Wake(id) =>
      if id in s.calls && s.calls[id].Waiting? && s.calls[id].flight in s.cache.settled then
        s.(calls := s.calls[id := Finished(s.calls[id].source, Answered(s.cache.settled[s.calls[id].flight]))])
      else s
  }

  ghost function Run(compile: Compiler, steps: seq<Step>): System {
    if steps == [] then INITIAL else Apply(compile, Run(compile, steps[..|steps| - 1]), steps[|steps| - 1])
  }

  // ---- the invariant ----------------------------------------------------------------------

  /** A call and the outcome it has or is bound to get. */
  ghost predicate CallOk(compile: Compiler, call: Call, flights: map<string, nat>, settled: map<nat, Outcome>,
      flightSource: map<nat, string>)
  {
    match call
    case Compiling(source, flight) => source in flights && flights[source] == flight
    case Waiting(source, flight) =>
      && |source| <= MAX_SOURCE_BYTES && flight in flightSource && flightSource[flight] == source
      && (flight in settled || (source in flights && flights[source] == flight))
    case Finished(source, answer) =>
      match answer
      case Answered(outcome) => |source| <= MAX_SOURCE_BYTES && outcome == Compile(compile, source)
      case TooLong => |source| > MAX_SOURCE_BYTES
      case FlightLimit => |source| <= MAX_SOURCE_BYTES
  }

  ghost predicate CallsOk(compile: Compiler, s: System) {
    forall id :: id in s.calls ==> CallOk(compile, s.calls[id], s.cache.flights, s.cache.settled, s.flightSource)
  }

  /** Cached results are the compiler's own. */
  ghost predicate EntriesOk(compile: Compiler, entries: map<string, Entry>) {
    forall t :: t in entries ==> |t| <= MAX_SOURCE_BYTES && Compile(compile, t) == Ok(entries[t].compiled)
  }

  /** Published outcomes are the compiler's own, and open flights know their source. */
  ghost predicate SourcesOk(compile: Compiler, flights: map<string, nat>, settled: map<nat, Outcome>,
      flightSource: map<nat, string>, next: nat) {
    && (forall f :: f in settled ==> f in flightSource && settled[f] == Compile(compile, flightSource[f]))
    && (forall t :: t in flights ==>
         |t| <= MAX_SOURCE_BYTES && flights[t] in flightSource && flightSource[flights[t]] == t)
    && (forall f :: f in flightSource ==> f < next)
  }

  /** Open flights and compiling calls are in one-to-one correspondence. */
  ghost predicate LeadersOk(flights: map<string, nat>, leader: map<string, nat>, calls: map<nat, Call>) {
    && leader.Keys == flights.Keys
    && (forall t :: t in leader ==> leader[t] in calls && calls[leader[t]] == Compiling(t, flights[t]))
    && (forall id :: id in calls && calls[id].Compiling? ==>
         calls[id].source in leader && leader[calls[id].source] == id)
  }

  ghost predicate Inv(compile: Compiler, s: System) {
    && Valid(s.cache) && EntriesOk(compile, s.cache.entries)
    && SourcesOk(compile, s.cache.flights, s.cache.settled, s.flightSource, s.cache.nextFlight)
    && LeadersOk(s.cache.flights, s.leader, s.calls)
    && CallsOk(compile, s)
  }

  // ---- preservation -----------------------------------------------------------------------

  /** Moving one non-compiling call to another non-compiling place. */
  lemma LeadersIgnoreOthers(flights: map<string, nat>, leader: map<string, nat>, calls: map<nat, Call>, id: nat,
      call: Call)
    requires LeadersOk(flights, leader, calls) && (id in calls ==> !calls[id].Compiling?) && !call.Compiling?
    ensures LeadersOk(flights, leader, calls[id := call])
  {
  }

  lemma StartLeads(flights: map<string, nat>, leader: map<string, nat>, calls: map<nat, Call>, id: nat,
      source: string, flight: nat)
    requires LeadersOk(flights, leader, calls) && id !in calls && source !in flights
    ensures LeadersOk(flights[source := flight], leader[source := id], calls[id := Compiling(source, flight)])
  {
  }

  lemma SettleRetires(flights: map<string, nat>, leader: map<string, nat>, calls: map<nat, Call>, id: nat,
      answer: Answer)
    requires LeadersOk(flights, leader, calls) && id in calls && calls[id].Compiling?
    ensures LeadersOk(flights - {calls[id].source}, leader - {calls[id].source},
        calls[id := Finished(calls[id].source, answer)])
  {
  }

  lemma StartSource(compile: Compiler, c: Cache, flightSource: map<nat, string>, source: string)
    requires FlightsValid(c.flights, c.settled, c.nextFlight) && |source| <= MAX_SOURCE_BYTES
    requires SourcesOk(compile, c.flights, c.settled, flightSource, c.nextFlight)
    ensures SourcesOk(compile, c.flights[source := c.nextFlight], c.settled, flightSource[c.nextFlight := source],
        c.nextFlight + 1)
  {
  }

  lemma SettleSource(compile: Compiler, c: Cache, flightSource: map<nat, string>, source: string)
    requires FlightsValid(c.flights, c.settled, c.nextFlight) && source in c.flights
    requires SourcesOk(compile, c.flights, c.settled, flightSource, c.nextFlight)
    ensures SourcesOk(compile, c.flights - {source}, c.settled[c.flights[source] := Compile(compile, source)],
        flightSource, c.nextFlight)
  {
  }

  /** A step that only moves a call which is not compiling, to a place its invariant allows. */
  lemma MoveKeepsInv(compile: Compiler, s: System, id: nat, call: Call)
    requires Inv(compile, s) && (id in s.calls ==> !s.calls[id].Compiling?) && !call.Compiling?
    requires CallOk(compile, call, s.cache.flights, s.cache.settled, s.flightSource)
    ensures Inv(compile, s.(calls := s.calls[id := call]))
  {
    LeadersIgnoreOthers(s.cache.flights, s.leader, s.calls, id, call);
  }

  lemma StartedCalls(compile: Compiler, s: System, id: nat, source: string)
    requires source !in s.cache.flights && (forall f :: f in s.flightSource ==> f < s.cache.nextFlight)
    requires CallsOk(compile, s)
    ensures
      var flight := s.cache.nextFlight;
      var begun := s.cache.(flights := s.cache.flights[source := flight], nextFlight := flight + 1);
      CallsOk(compile, s.(cache := begun, calls := s.calls[id := Compiling(source, flight)],
                          flightSource := s.flightSource[flight := source]))
  {
  }

  lemma StartKeepsInv(compile: Compiler, s: System, id: nat, source: string)
    requires Inv(compile, s) && id !in s.calls && |source| <= MAX_SOURCE_BYTES && Enter(s.cache, source).1.Started?
    ensures Inv(compile, Arrived(s, id, source))
  {
    EnterKeepsValid(s.cache, source);
    StartLeads(s.cache.flights, s.leader, s.calls, id, source, s.cache.nextFlight);
    StartSource(compile, s.cache, s.flightSource, source);
    StartedCalls(compile, s, id, source);
  }

  lemma ArriveKeepsInv(compile: Compiler, s: System, id: nat, source: string)
    requires Inv(compile, s) && id !in s.calls
    ensures Inv(compile, Arrived(s, id, source))
  {
    if |source| > MAX_SOURCE_BYTES {
      MoveKeepsInv(compile, s, id, Finished(source, TooLong));
    } else {
      match Enter(s.cache, source).1
      case Hit(compiled) => MoveKeepsInv(compile, s, id, Finished(source, Answered(Ok(compiled))));
      case Joined(flight) => MoveKeepsInv(compile, s, id, Waiting(source, flight));
      case Saturated => MoveKeepsInv(compile, s, id, Finished(source, FlightLimit));
      case Started(_) => StartKeepsInv(compile, s, id, source);
    }
  }

  lemma WakeKeepsInv(compile: Compiler, s: System, id: nat)
    requires Inv(compile, s) && id in s.calls && s.calls[id].Waiting? && s.calls[id].flight in s.cache.settled
    ensures Inv(compile, Apply(compile, s, Wake(id)))
  {
    MoveKeepsInv(compile, s, id, Finished(s.calls[id].source, Answered(s.cache.settled[s.calls[id].flight])));
  }

  lemma InsertedEntries(c: Cache, e: Entry)
    requires Valid(c) && e.source !in c.entries && e.weight <= MAX_WEIGHT
    ensures forall t :: t in Insert(c, e).entries ==>
              (if t == e.source then Insert(c, e).entries[t] == e
                else t in c.entries && Insert(c, e).entries[t] == c.entries[t])
  {
    var kept := Keep(c.order, e.weight);
    KeepIsSuffix(c.order, e.weight);
    assert (kept + [e])[..|kept|] == kept;
    KeptIndex(c.order, e.weight);
  }

  lemma {:induction false} KeptIndex(order: seq<Entry>, weight: nat)
    requires Distinct(order)
    ensures forall t :: t in Index(Keep(order, weight)) ==>
        t in Index(order) && Index(Keep(order, weight))[t] == Index(order)[t]
  {
    if order != [] && !Fits(order, weight) {
      IndexDropFirst(order);
      KeptIndex(order[1..], weight);
    }
  }

  lemma FinishedEntries(compile: Compiler, c: Cache, source: string)
    requires Valid(c) && source in c.flights && |source| <= MAX_SOURCE_BYTES && EntriesOk(compile, c.entries)
    ensures EntriesOk(compile, Finish(c, source, Compile(compile, source)).entries)
  {
    var outcome := Compile(compile, source);
    if outcome.Ok? && EntryWeight(source, outcome.value) <= MAX_WEIGHT {
      InsertedEntries(c, Entry(source, outcome.value, EntryWeight(source, outcome.value)));
    }
  }

  lemma SettledCalls(compile: Compiler, s: System, id: nat)
    requires id in s.calls && s.calls[id].Compiling? && s.calls[id].source in s.cache.flights
    requires |s.calls[id].source| <= MAX_SOURCE_BYTES
    requires LeadersOk(s.cache.flights, s.leader, s.calls) && CallsOk(compile, s)
    ensures CallsOk(compile, Apply(compile, s, Settle(id)))
  {
  }

  lemma SettleKeepsInv(compile: Compiler, s: System, id: nat)
    requires Inv(compile, s) && id in s.calls && s.calls[id].Compiling?
    ensures Inv(compile, Apply(compile, s, Settle(id)))
  {
    var source := s.calls[id].source;
    FinishKeepsValid(s.cache, source, Compile(compile, source));
    FinishedEntries(compile, s.cache, source);
    SettleSource(compile, s.cache, s.flightSource, source);
    SettleRetires(s.cache.flights, s.leader, s.calls, id, Answered(Compile(compile, source)));
    SettledCalls(compile, s, id);
  }

  lemma StepKeepsInv(compile: Compiler, s: System, step: Step)
    requires Inv(compile, s)
    ensures Inv(compile, Apply(compile, s, step))
  {
    match step
    case Arrive(id, source) =>
      if id !in s.calls { ArriveKeepsInv(compile, s, id, source); }
    case Settle(id) =>
      if id in s.calls && s.calls[id].Compiling? { SettleKeepsInv(compile, s, id); }
    case Wake(id) =>
      if id in s.calls && s.calls[id].Waiting? && s.calls[id].flight in s.cache.settled {
        WakeKeepsInv(compile, s, id);
      }
  }

  lemma {:induction false} RunKeepsInv(compile: Compiler, steps: seq<Step>)
    ensures Inv(compile, Run(compile, steps))
  {
    if steps != [] {
      RunKeepsInv(compile, steps[..|steps| - 1]);
      StepKeepsInv(compile, Run(compile, steps[..|steps| - 1]), steps[|steps| - 1]);
    } else {
      assert INITIAL.cache.inserted[0..] == [];
    }
  }

  // ---- what every run shows ---------------------------------------------------------------

  /** Every finished call got the compiler's result for its own source, or the length error exactly
      when the source is too long, or the flight-limit error. */
  lemma RefinesCompiler(compile: Compiler, steps: seq<Step>, id: nat)
    requires id in Run(compile, steps).calls && Run(compile, steps).calls[id].Finished?
    ensures var call := Run(compile, steps).calls[id];
            if |call.source| > MAX_SOURCE_BYTES then call.answer == TooLong
            else call.answer == FlightLimit || call.answer == Answered(Compile(compile, call.source))
  {
    RunKeepsInv(compile, steps);
  }

  /** No source is cached and in flight at once; map, list, weight and history agree; both bounds and
      the flight bound hold. */
  lemma CacheBounds(compile: Compiler, steps: seq<Step>)
    ensures var c := Run(compile, steps).cache;
            && c.entries.Keys !! c.flights.Keys && |c.flights| <= MAX_FLIGHTS
            && c.entries == Index(c.order) && |c.entries| == |c.order| <= MAX_ENTRIES
            && c.weight == Total(c.order) <= MAX_WEIGHT && LongestSuffix(c.order, c.inserted)
  {
    RunKeepsInv(compile, steps);
    IndexSize(Run(compile, steps).cache.order);
  }

  /** No source is compiled by two calls at once. */
  lemma OneCompilerPerSource(compile: Compiler, steps: seq<Step>, i: nat, j: nat)
    requires i in Run(compile, steps).calls && Run(compile, steps).calls[i].Compiling?
    requires j in Run(compile, steps).calls && Run(compile, steps).calls[j].Compiling?
    requires Run(compile, steps).calls[i].source == Run(compile, steps).calls[j].source
    ensures i == j
  {
    RunKeepsInv(compile, steps);
  }

  /** The flight-limit error is given only while four other sources are being compiled. */
  lemma LimitMeansFourCompiling(compile: Compiler, steps: seq<Step>, id: nat, source: string)
    requires id !in Run(compile, steps).calls
    requires Apply(compile, Run(compile, steps), Arrive(id, source)).calls[id] == Finished(source, FlightLimit)
    ensures var s := Run(compile, steps);
            exists busy: map<string, nat> :: |busy| == MAX_FLIGHTS && source !in busy &&
              forall t :: t in busy ==>
                  busy[t] in s.calls && s.calls[busy[t]].Compiling? && s.calls[busy[t]].source == t
  {
    RunKeepsInv(compile, steps);
    SaturatedMeansFourLeaders(compile, Run(compile, steps), id, source);
  }

  lemma SaturatedMeansFourLeaders(compile: Compiler, s: System, id: nat, source: string)
    requires Inv(compile, s) && id !in s.calls
    requires Arrived(s, id, source).calls[id] == Finished(source, FlightLimit)
    ensures |s.leader| == MAX_FLIGHTS && source !in s.leader
    ensures forall t :: t in s.leader ==>
        s.leader[t] in s.calls && s.calls[s.leader[t]] == Compiling(t, s.cache.flights[t])
  {
    assert |s.leader.Keys| == |s.cache.flights.Keys|;
  }

  /** A waiting call is never stranded: its flight was settled, or a compiling call will settle it. */
  lemma NoOrphanWaiter(compile: Compiler, steps: seq<Step>, id: nat)
    requires id in Run(compile, steps).calls && Run(compile, steps).calls[id].Waiting?
    ensures var s := Run(compile, steps);
            var call := s.calls[id];
            || call.flight in s.cache.settled
            || (exists other :: other in s.calls && s.calls[other] == Compiling(call.source, call.flight))
  {
    RunKeepsInv(compile, steps);
    var s := Run(compile, steps);
    if s.calls[id].flight !in s.cache.settled {
      assert s.calls[s.leader[s.calls[id].source]] == Compiling(s.calls[id].source, s.calls[id].flight);
    }
  }

  lemma SettlesAnOpenFlight(compile: Compiler, s: System, id: nat)
    requires FlightsValid(s.cache.flights, s.cache.settled, s.cache.nextFlight)
    requires LeadersOk(s.cache.flights, s.leader, s.calls)
    requires id in s.calls && s.calls[id].Compiling?
    ensures var s' := Apply(compile, s, Settle(id));
            && s.calls[id].flight !in s.cache.settled
            && s'.cache.settled == s.cache.settled[s.calls[id].flight := Compile(compile, s.calls[id].source)]
  {
  }

  lemma OthersPublishNothing(compile: Compiler, s: System, step: Step)
    requires step.Settle? && step.id in s.calls ==> !s.calls[step.id].Compiling?
    ensures Apply(compile, s, step).cache.settled == s.cache.settled
  {
    match step
    case Arrive(id, source) =>
    case Settle(id) =>
    case Wake(id) =>
  }

  /** A flight is settled exactly once: settling always meets an unsettled flight, and a published
      outcome is never changed by any later step. */
  lemma SettledOnce(compile: Compiler, steps: seq<Step>, step: Step)
    ensures var s, s' := Run(compile, steps), Apply(compile, Run(compile, steps), step);
            if step.Settle? && step.id in s.calls && s.calls[step.id].Compiling? then
              && s.calls[step.id].flight !in s.cache.settled
              && s'.cache.settled == s.cache.settled[s.calls[step.id].flight :=
                  Compile(compile, s.calls[step.id].source)]
            else s'.cache.settled == s.cache.settled
  {
    var s := Run(compile, steps);
    RunKeepsInv(compile, steps);
    if step.Settle? && step.id in s.calls && s.calls[step.id].Compiling? {
      SettlesAnOpenFlight(compile, s, step.id);
    } else {
      OthersPublishNothing(compile, s, step);
    }
  }

  // ---- calls do finish --------------------------------------------------------------------

  /** A compiling call finishes with its own result when it settles; a waiting call finishes with it once
      the flight is settled. */
  lemma CallsFinish(compile: Compiler, steps: seq<Step>, id: nat)
    requires id in Run(compile, steps).calls
    ensures var s := Run(compile, steps);
      && (s.calls[id].Compiling? ==>
            Apply(compile, s, Settle(id)).calls[id] == Finished(s.calls[id].source,
                Answered(Compile(compile, s.calls[id].source))))
      && (s.calls[id].Waiting? && s.calls[id].flight in s.cache.settled ==>
            Apply(compile, s, Wake(id)).calls[id] == Finished(s.calls[id].source,
                Answered(Compile(compile, s.calls[id].source))))
  {
    RunKeepsInv(compile, steps);
  }

  /** What a call meets when it arrives: the length limit, the cache, a flight of its source, the flight
      limit, or nothing, in which case it compiles. */
  lemma ArrivalDecides(compile: Compiler, s: System, id: nat, source: string)
    requires id !in s.calls
    ensures var s' := Apply(compile, s, Arrive(id, source));
      && id in s'.calls
      && s'.calls[id] ==
           (if |source| > 8192 then Finished(source, TooLong)
            else if source in s.cache.entries then Finished(source, Answered(Ok(s.cache.entries[source].compiled)))
            else if source in s.cache.flights then Waiting(source, s.cache.flights[source])
            else if |s.cache.flights| >= 4 then Finished(source, FlightLimit)
            else Compiling(source, s.cache.nextFlight))
      && s'.cache.entries == s.cache.entries
  {
  }

  /** After a success within the weight, the next call for that source is answered from the cache. */
  lemma SettledIsCached(compile: Compiler, steps: seq<Step>, id: nat)
    requires id in Run(compile, steps).calls && Run(compile, steps).calls[id].Compiling?
    requires var o, source :=
        Compile(compile, Run(compile, steps).calls[id].source), Run(compile, steps).calls[id].source;
      o.Ok? && EntryWeight(source, o.value) <= MAX_WEIGHT
    ensures var s := Run(compile, steps);
      var source := s.calls[id].source;
      var s' := Apply(compile, s, Settle(id));
      source in s'.cache.entries && s'.cache.entries[source].compiled == Compile(compile, source).value
  {
    RunKeepsInv(compile, steps);
    var s := Run(compile, steps);
    FinishCaches(s.cache, s.calls[id].source, Compile(compile, s.calls[id].source));
  }
}

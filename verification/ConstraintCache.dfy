/** The compiled-constraint cache: a FIFO cache bounded by weight and by count. Its two critical sections
    as functions of the cache's fields, and the object whose methods implement them. `SingleFlight` runs any
    number of callers through them. */
module ConstraintCache {
  import opened Wrappers

  const MAX_WEIGHT := 128 * 1024 * 1024
  const MAX_ENTRIES := 4096
  const MAX_FLIGHTS := 4
  const MAX_SOURCE_BYTES := 8192

  // ---- compiled constraints and their weight ----------------------------------------------

  /** The measured parts of a compiled atom. */
  datatype Atom = Atom(pointer: string, regexInstructions: nat, regexRunes: nat)

  datatype Constraint = Constraint(raw: string, version: nat, atoms: seq<Atom>)

  type Outcome = Result<Constraint, string>

  function AtomsWeight(atoms: seq<Atom>): nat {
    if atoms == [] then 0
    else
      var last := atoms[|atoms| - 1];
      AtomsWeight(atoms[..|atoms| - 1]) + last.regexInstructions * 64 + last.regexRunes * 4
  }

  /** `int64(len(source)+256) + compiled.cacheWeight()` */
  function EntryWeight(source: string, compiled: Constraint): (w: nat)
    ensures w >= 256
  {
    |source| + 256 + |compiled.raw| * 64 + |compiled.atoms| * 512 + AtomsWeight(compiled.atoms)
  }

  function Instructions(atoms: seq<Atom>): nat {
    if atoms == [] then 0 else atoms[0].regexInstructions + Instructions(atoms[1..])
  }

  function Runes(atoms: seq<Atom>): nat {
    if atoms == [] then 0 else atoms[0].regexRunes + Runes(atoms[1..])
  }

  lemma {:induction false} InstructionsSnoc(atoms: seq<Atom>, a: Atom)
    ensures Instructions(atoms + [a]) == Instructions(atoms) + a.regexInstructions
    ensures Runes(atoms + [a]) == Runes(atoms) + a.regexRunes
  {
    if atoms != [] {
      InstructionsSnoc(atoms[1..], a);
      assert (atoms + [a])[1..] == atoms[1..] + [a];
    }
  }

  lemma {:induction false} AtomsWeightIs(atoms: seq<Atom>)
    ensures AtomsWeight(atoms) == 64 * Instructions(atoms) + 4 * Runes(atoms)
  {
    if atoms != [] {
      var init, last := atoms[..|atoms| - 1], atoms[|atoms| - 1];
      AtomsWeightIs(init);
      InstructionsSnoc(init, last);
      assert atoms == init + [last];
    }
  }

  /** An entry weighs 256 and its source, 64 for each byte kept, 512 for each atom, 64 for each instruction
      and 4 for each rune of the expressions. */
  lemma WeightIs(source: string, compiled: Constraint)
    ensures EntryWeight(source, compiled) ==
              |source| + 256 + 64 * |compiled.raw| + 512 * |compiled.atoms|
              + 64 * Instructions(compiled.atoms) + 4 * Runes(compiled.atoms)
  {
    AtomsWeightIs(compiled.atoms);
  }

  method CacheWeight(compiled: Constraint) returns (weight: nat)
    ensures forall source :: EntryWeight(source, compiled) == |source| + 256 + weight
    ensures weight == 64 * |compiled.raw| + 512 * |compiled.atoms| + 64 * Instructions(compiled.atoms)
        + 4 * Runes(compiled.atoms)
  {
    AtomsWeightIs(compiled.atoms);
    weight := |compiled.raw| * 64 + |compiled.atoms| * 512;
    for i := 0 to |compiled.atoms|
      invariant weight == |compiled.raw| * 64 + |compiled.atoms| * 512 + AtomsWeight(compiled.atoms[..i])
    {
      weight := weight + compiled.atoms[i].regexInstructions * 64 + compiled.atoms[i].regexRunes * 4;
      assert compiled.atoms[..i + 1][..i] == compiled.atoms[..i];
    }
    assert compiled.atoms[..|compiled.atoms|] == compiled.atoms;
  }

  // ---- the cache as a value ---------------------------------------------------------------

  datatype Entry = Entry(source: string, compiled: Constraint, weight: nat)

  /** `settled` holds the outcome of every flight whose done channel was closed; `inserted` is the
      history of insertions, which nothing reads. */
  datatype Cache = Cache(
    weight: int,
    entries: map<string, Entry>,
    order: seq<Entry>,
    flights: map<string, nat>,
    settled: map<nat, Outcome>,
    nextFlight: nat,
    inserted: seq<Entry>)

  const EMPTY_CACHE := Cache(0, map[], [], map[], map[], 0, [])

  ghost function Total(order: seq<Entry>): nat {
    if order == [] then 0 else Total(order[..|order| - 1]) + order[|order| - 1].weight
  }

  /** The map a list of entries denotes. */
  ghost function Index(order: seq<Entry>): map<string, Entry> {
    if order == [] then map[]
    else Index(order[..|order| - 1])[order[|order| - 1].source := order[|order| - 1]]
  }

  ghost predicate Distinct(order: seq<Entry>) {
    forall i, j :: 0 <= i < j < |order| ==> order[i].source != order[j].source
  }

  ghost predicate Within(order: seq<Entry>) {
    |order| <= MAX_ENTRIES && Total(order) <= MAX_WEIGHT
  }

  /** `kept` is the longest suffix of `history` that respects both bounds. */
  ghost predicate LongestSuffix(kept: seq<Entry>, history: seq<Entry>) {
    && |kept| <= |history| && kept == history[|history| - |kept|..] && Within(kept)
    && forall j: nat :: j < |history| - |kept| ==> Overflows(history, j)
  }

  ghost predicate Overflows(history: seq<Entry>, j: nat)
    requires j <= |history|
  {
    !Within(history[j..])
  }

  /** What every critical section keeps about the fields. */
  ghost predicate Valid(c: Cache) {
    && Distinct(c.order) && c.entries == Index(c.order) && c.weight == Total(c.order)
    && LongestSuffix(c.order, c.inserted)
    && c.flights.Keys !! c.entries.Keys
    && FlightsValid(c.flights, c.settled, c.nextFlight)
  }

  /** At most four sources are in flight, each on its own flight, and no open flight is settled. */
  ghost predicate FlightsValid(flights: map<string, nat>, settled: map<nat, Outcome>, next: nat) {
    && |flights| <= MAX_FLIGHTS
    && (forall s :: s in flights ==> flights[s] < next && flights[s] !in settled)
    && (forall s, t :: s in flights && t in flights && s != t ==> flights[s] != flights[t])
    && (forall f :: f in settled ==> f < next)
  }

  lemma OpenFlight(flights: map<string, nat>, settled: map<nat, Outcome>, next: nat, source: string)
    requires FlightsValid(flights, settled, next) && source !in flights && |flights| < MAX_FLIGHTS
    ensures FlightsValid(flights[source := next], settled, next + 1)
  {
    assert flights[source := next].Keys == flights.Keys + {source};
  }

  lemma CloseFlight(flights: map<string, nat>, settled: map<nat, Outcome>, next: nat, source: string, outcome: Outcome)
    requires FlightsValid(flights, settled, next) && source in flights
    ensures FlightsValid(flights - {source}, settled[flights[source] := outcome], next)
  {
    assert (flights - {source}).Keys == flights.Keys - {source};
  }

  // ---- sequences of entries ---------------------------------------------------------------

  lemma {:induction false} TotalDropFirst(order: seq<Entry>)
    requires order != []
    ensures Total(order) == order[0].weight + Total(order[1..])
  {
    var n := |order| - 1;
    if n > 0 {
      TotalDropFirst(order[..n]);
      assert order[..n][1..] == order[1..][..n - 1];
    }
  }

  lemma TotalSnoc(order: seq<Entry>, e: Entry)
    ensures Total(order + [e]) == Total(order) + e.weight
  {
    assert (order + [e])[..|order|] == order;
  }

  lemma {:induction false} IndexKeys(order: seq<Entry>)
    ensures forall i :: 0 <= i < |order| ==> order[i].source in Index(order)
    ensures forall s :: s in Index(order) ==> Index(order)[s] in order && Index(order)[s].source == s
  {
    if order != [] {
      IndexKeys(order[..|order| - 1]);
    }
  }

  lemma {:induction false} IndexSize(order: seq<Entry>)
    requires Distinct(order)
    ensures |Index(order)| == |order|
  {
    if order != [] {
      var front := order[..|order| - 1];
      IndexSize(front);
      IndexKeys(front);
      assert order[|order| - 1].source !in Index(front);
    }
  }

  lemma {:induction false} IndexDropFirst(order: seq<Entry>)
    requires order != [] && Distinct(order)
    ensures Index(order[1..]) == Index(order) - {order[0].source}
  {
    var n := |order| - 1;
    if n > 0 {
      IndexDropFirst(order[..n]);
      assert order[..n][1..] == order[1..][..n - 1];
    }
  }

  // ---- eviction ---------------------------------------------------------------------------

  /** The negation of the eviction loop's guard. */
  ghost predicate Fits(order: seq<Entry>, weight: nat) {
    |order| < MAX_ENTRIES && Total(order) + weight <= MAX_WEIGHT
  }

  /** What the eviction loop leaves: it drops the oldest entry until the new one fits. */
  ghost function Keep(order: seq<Entry>, weight: nat): seq<Entry> {
    if order == [] || Fits(order, weight) then order else Keep(order[1..], weight)
  }

  lemma {:induction false} KeepIsSuffix(order: seq<Entry>, weight: nat)
    requires weight <= MAX_WEIGHT
    ensures var kept := Keep(order, weight);
            && |kept| <= |order| && kept == order[|order| - |kept|..] && Fits(kept, weight)
            && forall j :: 0 <= j < |order| - |kept| ==> !Fits(order[j..], weight)
  {
    if order != [] && !Fits(order, weight) {
      KeepIsSuffix(order[1..], weight);
      var kept := Keep(order, weight);
      forall j | 0 <= j < |order| - |kept|
        ensures !Fits(order[j..], weight)
      {
        if j == 0 {
          assert order[0..] == order;
        } else {
          assert order[j..] == order[1..][j - 1..];
        }
      }
    }
  }

  /** Inserting keeps the contents the longest admissible suffix of everything ever inserted: the
      cache is first-in first-out and evicts nothing it could have kept. */
  lemma InsertionKeepsLongestSuffix(order: seq<Entry>, history: seq<Entry>, e: Entry)
    requires LongestSuffix(order, history) && e.weight <= MAX_WEIGHT
    ensures LongestSuffix(Keep(order, e.weight) + [e], history + [e])
  {
    var kept := Keep(order, e.weight);
    KeptSuffix(order, history, e);
    forall j: nat | j < |history| - |kept|
      ensures Overflows(history + [e], j)
    {
      LongerSuffixOverflows(order, history, e, j);
    }
  }

  lemma KeptSuffix(order: seq<Entry>, history: seq<Entry>, e: Entry)
    requires |order| <= |history| && order == history[|history| - |order|..] && e.weight <= MAX_WEIGHT
    ensures var kept := Keep(order, e.weight);
            |kept| <= |history| && kept + [e] == (history + [e])[|history| - |kept|..] && Within(kept + [e])
  {
    var kept := Keep(order, e.weight);
    KeepIsSuffix(order, e.weight);
    TotalSnoc(kept, e);
    assert kept == history[|history| - |kept|..];
  }

  lemma LongerSuffixOverflows(order: seq<Entry>, history: seq<Entry>, e: Entry, j: nat)
    requires LongestSuffix(order, history) && e.weight <= MAX_WEIGHT
    requires j < |history| - |Keep(order, e.weight)|
    ensures Overflows(history + [e], j)
  {
    assert (history + [e])[j..] == history[j..] + [e];
    TotalSnoc(history[j..], e);
    KeepIsSuffix(order, e.weight);
    var gone := |history| - |order|;
    if j >= gone {
      assert history[j..] == order[j - gone..];
      assert !Fits(order[j - gone..], e.weight);
    } else {
      assert Overflows(history, j);
    }
  }

  // ---- the two critical sections ----------------------------------------------------------

  /** How a lookup leaves the first critical section. */
  datatype Entered = Hit(compiled: Constraint) | Joined(flight: nat) | Saturated | Started(flight: nat)

  ghost function Enter(c: Cache, source: string): (Cache, Entered) {
    if source in c.entries then (c, Hit(c.entries[source].compiled))
    else if source in c.flights then (c, Joined(c.flights[source]))
    else if |c.flights| >= MAX_FLIGHTS then (c, Saturated)
    else (c.(flights := c.flights[source := c.nextFlight], nextFlight := c.nextFlight + 1), Started(c.nextFlight))
  }

  ghost function Insert(c: Cache, e: Entry): Cache {
    var order := Keep(c.order, e.weight) + [e];
    c.(weight := Total(order), entries := Index(order), order := order, inserted := c.inserted + [e])
  }

  /** Caching a success that is not too heavy. */
  ghost function Cached(c: Cache, source: string, outcome: Outcome): Cache {
    if outcome.Ok? && EntryWeight(source, outcome.value) <= MAX_WEIGHT
    then Insert(c, Entry(source, outcome.value, EntryWeight(source, outcome.value)))
    else c
  }

  /** Then the outcome is published and the flight retired. */
  ghost function Finish(c: Cache, source: string, outcome: Outcome): Cache
    requires source in c.flights
  {
    Cached(c, source, outcome).(settled := c.settled[c.flights[source] := outcome], flights := c.flights - {source})
  }

  /** A success within the weight is cached under its source, as it was compiled; anything else leaves the
      cache's contents alone. */
  lemma FinishCaches(c: Cache, source: string, outcome: Outcome)
    requires Valid(c) && source in c.flights
    ensures var c' := Finish(c, source, outcome);
      if outcome.Ok? && EntryWeight(source, outcome.value) <= MAX_WEIGHT
      then source in c'.entries && c'.entries[source].compiled == outcome.value
           && Enter(c', source) == (c', Hit(outcome.value))
      else c'.entries == c.entries && c'.order == c.order && c'.weight == c.weight
  {
    if outcome.Ok? && EntryWeight(source, outcome.value) <= MAX_WEIGHT {
      var e := Entry(source, outcome.value, EntryWeight(source, outcome.value));
      var kept := Keep(c.order, e.weight);
      assert (kept + [e])[..|kept|] == kept;
    }
  }

  /** The map a list denotes has the list's sources, and at each the last entry of that source. */
  lemma {:induction false} IndexIs(order: seq<Entry>, i: nat)
    requires i < |order| && Distinct(order)
    ensures order[i].source in Index(order) && Index(order)[order[i].source] == order[i]
  {
    var n := |order| - 1;
    if i < n {
      IndexIs(order[..n], i);
      assert order[..n][i] == order[i] && order[i].source != order[n].source;
    }
  }

  lemma EnterKeepsValid(c: Cache, source: string)
    requires Valid(c)
    ensures Valid(Enter(c, source).0)
  {
    if source !in c.entries && source !in c.flights && |c.flights| < MAX_FLIGHTS {
      OpenFlight(c.flights, c.settled, c.nextFlight, source);
    }
  }

  lemma KeptEntries(order: seq<Entry>, e: Entry)
    requires Distinct(order) && e.source !in Index(order) && e.weight <= MAX_WEIGHT
    ensures Distinct(Keep(order, e.weight) + [e])
    ensures Index(Keep(order, e.weight) + [e]).Keys <= Index(order).Keys + {e.source}
  {
    var kept := Keep(order, e.weight);
    KeepIsSuffix(order, e.weight);
    IndexKeys(order);
    IndexKeys(kept);
    assert (kept + [e])[..|kept|] == kept;
    SuffixSources(kept, order);
  }

  lemma SuffixSources(kept: seq<Entry>, order: seq<Entry>)
    requires |kept| <= |order| && kept == order[|order| - |kept|..] && Distinct(order)
    ensures Distinct(kept) && forall x :: x in kept ==> x in order
  {
    assert forall i :: 0 <= i < |kept| ==> kept[i] == order[|order| - |kept| + i];
  }

  lemma InsertKeepsOrder(c: Cache, e: Entry)
    requires Valid(c) && e.source !in c.entries && e.weight <= MAX_WEIGHT
    ensures var c' := Insert(c, e);
            Distinct(c'.order) && LongestSuffix(c'.order, c'.inserted) && c'.entries.Keys <= c.entries.Keys + {e.source}
  {
    KeptEntries(c.order, e);
    InsertionKeepsLongestSuffix(c.order, c.inserted, e);
  }

  lemma FinishKeepsValid(c: Cache, source: string, outcome: Outcome)
    requires Valid(c) && source in c.flights
    ensures Valid(Finish(c, source, outcome))
  {
    CloseFlight(c.flights, c.settled, c.nextFlight, source, outcome);
    if outcome.Ok? && EntryWeight(source, outcome.value) <= MAX_WEIGHT {
      InsertKeepsOrder(c, Entry(source, outcome.value, EntryWeight(source, outcome.value)));
    }
  }

  // ---- the cache object -------------------------------------------------------------------

  /** `compiledConstraintCache`; each method is one region under the cache's mutex. */
  class CompiledConstraintCache {
    var weight: int
    var entries: map<string, Entry>
    var order: seq<Entry>
    var flights: map<string, nat>
    var settled: map<nat, Outcome>
    var nextFlight: nat
    ghost var inserted: seq<Entry>

    ghost function View(): Cache
      reads this
    {
      Cache(weight, entries, order, flights, settled, nextFlight, inserted)
    }

    constructor ()
      ensures View() == EMPTY_CACHE && Valid(View())
    {
      weight, entries, order, flights, settled, nextFlight, inserted := 0, map[], [], map[], map[], 0, [];
      new;
      assert inserted[0..] == [];
    }

    /** From the lookup to the first unlock. */
    method Lookup(source: string) returns (entered: Entered)
      modifies this
      ensures (View(), entered) == Enter(old(View()), source)
      ensures Valid(old(View())) ==> Valid(View())
      ensures entered.Hit? <==> source in entries
      ensures entered.Hit? ==> entered.compiled == entries[source].compiled
      ensures entered.Joined? <==> source !in entries && source in old(flights)
      ensures entered.Joined? ==> entered.flight == flights[source]
      ensures entered.Saturated? <==> source !in entries && source !in flights && |flights| >= MAX_FLIGHTS
      ensures entered.Started? ==>
          source in flights && flights[source] == entered.flight && entered.flight == old(nextFlight)
      ensures !entered.Started? ==> flights == old(flights)
      ensures entries == old(entries) && order == old(order) && settled == old(settled)
    {
      if Valid(View()) {
        EnterKeepsValid(View(), source);
      }
      if source in entries {
        return Hit(entries[source].compiled);
      }
      if source in flights {
        return Joined(flights[source]);
      }
      if |flights| >= MAX_FLIGHTS {
        return Saturated;
      }
      var flight := nextFlight;
      flights, nextFlight := flights[source := flight], nextFlight + 1;
      return Started(flight);
    }

    /** The eviction loop: it never meets an empty list and leaves room for the new entry. */
    method Evict(w: nat)
      requires Distinct(order) && entries == Index(order) && weight == Total(order) && w <= MAX_WEIGHT
      modifies this`order, this`entries, this`weight
      ensures order == Keep(old(order), w) && entries == Index(order) && weight == Total(order)
      ensures Distinct(order) && Fits(order, w)
    {
      IndexSize(order);
      while |entries| >= MAX_ENTRIES || weight + w > MAX_WEIGHT
        invariant Distinct(order) && entries == Index(order) && |entries| == |order| && weight == Total(order)
        invariant Keep(old(order), w) == Keep(order, w)
        decreases |order|
      {
        var oldest := order[0];
        IndexDropFirst(order);
        TotalDropFirst(order);
        entries := entries - {oldest.source};
        order := order[1..];
        weight := weight - oldest.weight;
        IndexSize(order);
      }
    }

    method Store(entry: Entry)
      requires Distinct(order) && entries == Index(order) && weight == Total(order) && entry.weight <= MAX_WEIGHT
      modifies this`order, this`entries, this`weight, this`inserted
      ensures View() == Insert(old(View()), entry)
    {
      Evict(entry.weight);
      TotalSnoc(order, entry);
      assert (order + [entry])[..|order|] == order;
      order, entries, weight := order + [entry], entries[entry.source := entry], weight + entry.weight;
      inserted := inserted + [entry];
    }

    /** A success that is not too heavy is stored. */
    method CacheOutcome(source: string, outcome: Outcome)
      requires Distinct(order) && entries == Index(order) && weight == Total(order)
      modifies this`order, this`entries, this`weight, this`inserted
      ensures View() == Cached(old(View()), source, outcome)
    {
      if outcome.Ok? {
        var rest := CacheWeight(outcome.value);
        var w := |source| + 256 + rest;
        assert w == EntryWeight(source, outcome.value);
        if w <= MAX_WEIGHT {
          Store(Entry(source, outcome.value, w));
        }
      }
    }

    /** From the second lock to the second unlock, after `compileSource` returned. */
    method Complete(source: string, outcome: Outcome)
      requires Valid(View()) && source in flights
      modifies this
      ensures View() == Finish(old(View()), source, outcome) && Valid(View())
      ensures settled == old(settled)[old(flights)[source] := outcome] && source !in flights
      ensures outcome.Ok? && EntryWeight(source, outcome.value) <= MAX_WEIGHT ==>
                source in entries && entries[source].compiled == outcome.value
      ensures !(outcome.Ok? && EntryWeight(source, outcome.value) <= MAX_WEIGHT) ==> entries == old(entries)
    {
      CacheOutcome(source, outcome);
      settled := settled[flights[source] := outcome];
      flights := flights - {source};
      FinishKeepsValid(old(View()), source, outcome);
      FinishCaches(old(View()), source, outcome);
    }
  }
}

/** Evaluating and confirming an admission as concurrent threads: leases with a one-way phase, one-shot
    candidates, a gate that one thread holds at a time, and mutations that take the same gate. A
    confirmation claims its candidate, takes the gate, reads the database and commits in separate
    steps; releases, drains and lost health may fall between any two of them. */
module Admission {
  import opened Wrappers
  import P = Principals

  datatype Phase = Pending | Admitted | Cancelled | Released

  datatype Lease = Lease(binding: P.Binding, phase: Phase)

  /** An allowing evaluation; `policy` remembers what was evaluated. */
  datatype Candidate = Candidate(lease: nat, revision: int, policy: nat, used: bool)

  /** What a thread is in the middle of. All but `Claimed` hold the gate. */
  datatype Thread =
    | Evaluating(lease: nat)
    | Claimed(candidate: nat)
    | Fenced(candidate: nat)
    | Checked(candidate: nat)
    | Cancelling(principal: Option<nat>)

  /** An admitted subject, with the database at the moment it was admitted. */
  datatype Subject = Subject(lease: nat, candidate: nat, at: P.Store)

  datatype State = State(store: P.Store, gate: Option<nat>, draining: bool, leases: map<nat, Lease>,
                         candidates: map<nat, Candidate>, threads: map<nat, Thread>, subjects: seq<Subject>)

  datatype Action =
    | Register(l: nat, binding: P.Binding)
    | BeginEvaluation(t: nat, l: nat)
    | Evaluate(t: nat, c: nat, allowed: bool)
    | Claim(t: nat, c: nat)
    | TakeGate(t: nat, taken: bool)
    | Check(t: nat)
    | Confirm(t: nat, alive: bool)
    | Mutate(t: nat, m: P.Mutation, after: P.Store)
    | Cancel(t: nat, l: nat)
    | FinishMutation(t: nat)
    | Release(l: nat)
    | BeginDrain
    | CancelDrained(l: nat)

  predicate IsPending(s: State, l: nat) {
    l in s.leases && s.leases[l].phase.Pending?
  }

  predicate Owns(th: Thread) {
    !th.Claimed?
  }

  /** A mutation has cancelled what it had to. */
  ghost predicate NothingToCancel(s: State, principal: Option<nat>) {
    forall l :: l in s.leases && principal == Some(s.leases[l].binding.principal) ==> !s.leases[l].phase.Pending?
  }

  ghost predicate Enabled(s: State, a: Action) {
    match a
    case Register(l, b) => s.gate.None? && !s.draining && l !in s.leases && P.Available(s.store.rows)
        && P.Current(s.store.rows, b)
    case BeginEvaluation(t, l) => s.gate.None? && !s.draining && t !in s.threads && IsPending(s, l)
    case Evaluate(t, c, allowed) => t in s.threads && s.threads[t].Evaluating? && c !in s.candidates
    case Claim(t, c) => t !in s.threads && c in s.candidates && !s.candidates[c].used
    case TakeGate(t, taken) => t in s.threads && s.threads[t].Claimed? && (taken ==> s.gate.None? && !s.draining)
    case Check(t) => t in s.threads && s.threads[t].Fenced?
    case Confirm(t, _) => t in s.threads && s.threads[t].Checked?
    case Mutate(t, m, after) => s.gate.None? && t !in s.threads && P.Step(s.store, m, after)
    case Cancel(t, l) => IsPending(s, l) && t in s.threads
        && s.threads[t] == Cancelling(Some(s.leases[l].binding.principal))
    case FinishMutation(t) => t in s.threads && s.threads[t].Cancelling? && NothingToCancel(s, s.threads[t].principal)
    case Release(l) => l in s.leases && (s.leases[l].phase.Pending? || s.leases[l].phase.Admitted?)
    case BeginDrain => !s.draining
    case CancelDrained(l) => s.draining && IsPending(s, l)
  }

  function Begin(s: State, t: nat, th: Thread): State {
    s.(threads := s.threads[t := th], gate := Some(t))
  }

  /** The thread ends; if it held the gate, the gate is free. */
  function End(s: State, t: nat): State {
    s.(threads := s.threads - {t}, gate := None)
  }

  function SetPhase(s: State, l: nat, phase: Phase): State
    requires l in s.leases
  {
    s.(leases := s.leases[l := s.leases[l].(phase := phase)])
  }

  function DoEvaluate(s: State, t: nat, c: nat, allowed: bool): State
    requires t in s.threads && s.threads[t].Evaluating?
  {
    var l := s.threads[t].lease;
    if !allowed || !IsPending(s, l) || !P.Current(s.store.rows, s.leases[l].binding) then End(s, t)
    else End(s, t).(candidates := s.candidates[c := Candidate(l, s.store.revision, s.store.policy, false)])
  }

  /** The candidate's binding is the stored one and its revision the present one. */
  predicate Holds(s: State, c: nat) {
    && c in s.candidates && s.candidates[c].lease in s.leases
    && P.Current(s.store.rows, s.leases[s.candidates[c].lease].binding) && s.store.revision == s.candidates[c].revision
  }

  function DoCheck(s: State, t: nat): State
    requires t in s.threads && s.threads[t].Fenced?
  {
    var c := s.threads[t].candidate;
    if Holds(s, c) then s.(threads := s.threads[t := Checked(c)]) else End(s, t)
  }

  /** The compare-and-swap that admits. */
  predicate Admits(s: State, t: nat, alive: bool) {
    && t in s.threads && s.threads[t].Checked? && s.threads[t].candidate in s.candidates
    && alive && !s.draining && IsPending(s, s.candidates[s.threads[t].candidate].lease)
  }

  function DoConfirm(s: State, t: nat, alive: bool): State {
    if !Admits(s, t, alive) then End(s, t)
    else
      var c := s.threads[t].candidate;
      var l := s.candidates[c].lease;
      End(SetPhase(s, l, Admitted), t).(subjects := s.subjects + [Subject(l, c, s.store)])
  }

  function DoClaim(s: State, t: nat, c: nat): State
    requires c in s.candidates
  {
    s.(candidates := s.candidates[c := s.candidates[c].(used := true)], threads := s.threads[t := Claimed(c)])
  }

  function DoTakeGate(s: State, t: nat, taken: bool): State
    requires t in s.threads && s.threads[t].Claimed?
  {
    if taken then Begin(s, t, Fenced(s.threads[t].candidate)) else s.(threads := s.threads - {t})
  }

  ghost function Apply(s: State, a: Action): State
    requires Enabled(s, a)
  {
    match a
    case Register(l, b) => s.(leases := s.leases[l := Lease(b, Pending)])
    case BeginEvaluation(t, l) => Begin(s, t, Evaluating(l))
    case Evaluate(t, c, allowed) => DoEvaluate(s, t, c, allowed)
    case Claim(t, c) => DoClaim(s, t, c)
    case TakeGate(t, taken) => DoTakeGate(s, t, taken)
    case Check(t) => DoCheck(s, t)
    case Confirm(t, alive) => DoConfirm(s, t, alive)
    case Mutate(t, m, after) => Begin(s, t, Cancelling(P.Affected(m))).(store := after)
    case Cancel(_, l) => SetPhase(s, l, Cancelled)
    case FinishMutation(t) => End(s, t)
    case Release(l) => SetPhase(s, l, Released)
    case BeginDrain => s.(draining := true)
    case CancelDrained(l) => SetPhase(s, l, Cancelled)
  }

  // ---- invariants -------------------------------------------------------------------------

  predicate Cites(th: Thread) {
    th.Claimed? || th.Fenced? || th.Checked?
  }

  /** Threads name leases and candidates that exist; a claimed candidate is used up. */
  ghost predicate Linked(s: State) {
    && (forall t :: t in s.threads && s.threads[t].Evaluating? ==> s.threads[t].lease in s.leases)
    && (forall t :: t in s.threads && Cites(s.threads[t]) ==>
         s.threads[t].candidate in s.candidates && s.candidates[s.threads[t].candidate].used)
    && (forall c :: c in s.candidates ==> s.candidates[c].lease in s.leases)
  }

  /** The gate belongs to the one thread that is past taking it. */
  ghost predicate Gated(s: State) {
    forall t :: t in s.threads && Owns(s.threads[t]) <==> s.gate == Some(t)
  }

  /** What a candidate was evaluated against is the present policy unless the revision has moved. */
  ghost predicate Dated(s: State) {
    forall c :: c in s.candidates ==>
      s.candidates[c].revision <= s.store.revision
          && (s.candidates[c].revision == s.store.revision ==> s.candidates[c].policy == s.store.policy)
  }

  /** A lease never runs ahead of its principal. */
  ghost predicate Behind(s: State) {
    forall l :: l in s.leases ==>
      && s.leases[l].binding.principal in s.store.rows
      && s.leases[l].binding.revision <= s.store.rows[s.leases[l].binding.principal].revision
  }

  /** Between a confirmation's read and its commit, what it read stays true. */
  ghost predicate StillTrue(s: State) {
    forall t :: t in s.threads && s.threads[t].Checked? ==> Holds(s, s.threads[t].candidate)
  }

  /** Admissions are of distinct leases, none of them pending any more. */
  ghost predicate OneShot(s: State) {
    && (forall i, j :: 0 <= i < j < |s.subjects| ==> s.subjects[i].lease != s.subjects[j].lease)
    && (forall i :: 0 <= i < |s.subjects| ==>
         s.subjects[i].lease in s.leases && !s.leases[s.subjects[i].lease].phase.Pending?)
  }

  ghost predicate Inv(s: State) {
    P.Inv(s.store) && Linked(s) && Gated(s) && Dated(s) && Behind(s) && StillTrue(s) && OneShot(s)
  }

  /** Leases keep their bindings, candidates keep all but the mark of use, and a lease that is no longer
      pending never is again. */
  ghost predicate LeasesGrow(s: State, s': State) {
    forall l :: l in s.leases ==>
        l in s'.leases && s'.leases[l].binding == s.leases[l].binding
            && (s'.leases[l].phase.Pending? ==> s.leases[l].phase.Pending?)
  }

  ghost predicate CandidatesGrow(s: State, s': State) {
    (forall c :: c in s.candidates ==>
        c in s'.candidates && s'.candidates[c].(used := s.candidates[c].used) == s.candidates[c]
            && (s.candidates[c].used ==> s'.candidates[c].used))
  }

  lemma StepGrowsLeases(s: State, a: Action)
    requires Linked(s) && Enabled(s, a)
    ensures LeasesGrow(s, Apply(s, a))
  {
  }

  lemma StepGrowsCandidates(s: State, a: Action)
    requires Linked(s) && Enabled(s, a)
    ensures CandidatesGrow(s, Apply(s, a))
  {
  }

  /** Only these actions set a thread to something new. */
  lemma ThreadMoves(s: State, a: Action, t: nat)
    requires Linked(s) && Enabled(s, a) && t in Apply(s, a).threads
    requires !(t in s.threads && s.threads[t] == Apply(s, a).threads[t])
    ensures (a.BeginEvaluation? || a.Claim? || a.TakeGate? || a.Check? || a.Mutate?) && a.t == t
  {
  }

  lemma StepKeepsLinked(s: State, a: Action)
    requires Linked(s) && Enabled(s, a)
    ensures Linked(Apply(s, a))
  {
    var s' := Apply(s, a);
    StepGrowsLeases(s, a);
    StepGrowsCandidates(s, a);
    forall t | t in s'.threads
      ensures s'.threads[t].Evaluating? ==> s'.threads[t].lease in s'.leases
      ensures Cites(s'.threads[t]) ==>
          s'.threads[t].candidate in s'.candidates && s'.candidates[s'.threads[t].candidate].used
    {
      if !(t in s.threads && s.threads[t] == s'.threads[t]) {
        ThreadMoves(s, a, t);
      }
    }
  }

  lemma StepKeepsGated(s: State, a: Action)
    requires Linked(s) && Gated(s) && Enabled(s, a)
    ensures Gated(Apply(s, a))
  {
  }

  lemma StoreMoves(s: State, a: Action)
    requires Linked(s) && Enabled(s, a)
    ensures !a.Mutate? ==> Apply(s, a).store == s.store
    ensures s.store.revision <= Apply(s, a).store.revision
    ensures s.store.revision == Apply(s, a).store.revision ==> s.store.policy == Apply(s, a).store.policy
    ensures forall id :: id in s.store.rows ==>
        id in Apply(s, a).store.rows && s.store.rows[id].revision <= Apply(s, a).store.rows[id].revision
  {
    if a.Mutate? {
      forall id | id in s.store.rows
        ensures id in a.after.rows && s.store.rows[id].revision <= a.after.rows[id].revision
      {
        P.StepAdvances(s.store, a.m, a.after, id);
      }
      assert s.store.revision <= a.after.revision
          && (s.store.revision == a.after.revision ==> s.store.policy == a.after.policy);
    }
  }

  lemma StepKeepsDated(s: State, a: Action)
    requires Linked(s) && Dated(s) && Enabled(s, a)
    ensures Dated(Apply(s, a))
  {
    StepGrowsCandidates(s, a);
    StoreMoves(s, a);
  }

  lemma StepKeepsBehind(s: State, a: Action)
    requires Linked(s) && Behind(s) && Enabled(s, a)
    ensures Behind(Apply(s, a))
  {
    StepGrowsLeases(s, a);
    StoreMoves(s, a);
  }

  lemma StepKeepsStillTrue(s: State, a: Action)
    requires Linked(s) && Gated(s) && StillTrue(s) && Enabled(s, a)
    ensures StillTrue(Apply(s, a))
  {
    var s' := Apply(s, a);
    StepGrowsLeases(s, a);
    StepGrowsCandidates(s, a);
    StoreMoves(s, a);
    forall t | t in s'.threads && s'.threads[t].Checked?
      ensures s'.threads[t].candidate in s.candidates && s.candidates[s'.threads[t].candidate].lease in s.leases
          && Holds(s', s'.threads[t].candidate)
    {
      if !(t in s.threads && s.threads[t] == s'.threads[t]) {
        ThreadMoves(s, a, t);
      } else {
        assert s.gate == Some(t);
      }
    }
  }

  lemma StepKeepsOneShot(s: State, a: Action)
    requires Linked(s) && OneShot(s) && Enabled(s, a)
    ensures OneShot(Apply(s, a))
  {
    StepGrowsLeases(s, a);
    if a.Confirm? {
      ConfirmKeepsOneShot(s, a.t, a.alive);
    } else {
      assert Apply(s, a).subjects == s.subjects;
    }
  }

  lemma ConfirmKeepsOneShot(s: State, t: nat, alive: bool)
    requires Linked(s) && OneShot(s)
    ensures OneShot(DoConfirm(s, t, alive))
  {
  }

  lemma StepKeepsInv(s: State, a: Action)
    requires Inv(s) && Enabled(s, a)
    ensures Inv(Apply(s, a))
  {
    StepKeepsLinked(s, a);
    StepKeepsGated(s, a);
    StepKeepsDated(s, a);
    StepKeepsBehind(s, a);
    StepKeepsStillTrue(s, a);
    StepKeepsOneShot(s, a);
    StoreMoves(s, a);
    if a.Mutate? {
      P.StepKeepsInv(s.store, a.m, a.after);
    }
  }

  // ---- runs -------------------------------------------------------------------------------

  ghost predicate Run(states: seq<State>, actions: seq<Action>) {
    && |states| == |actions| + 1
    && P.Inv(states[0].store) && states[0] == State(states[0].store, None, false, map[], map[], map[], [])
    && forall i :: 0 <= i < |actions| ==>
        Enabled(states[i], actions[i]) && states[i + 1] == Apply(states[i], actions[i])
  }

  lemma {:induction false} RunKeepsInv(states: seq<State>, actions: seq<Action>, i: nat)
    requires Run(states, actions) && i < |states|
    ensures Inv(states[i])
  {
    if i > 0 {
      RunKeepsInv(states, actions, i - 1);
      StepKeepsInv(states[i - 1], actions[i - 1]);
    }
  }

  /** However many candidates a lease has and however their confirmations race, it is admitted once. */
  lemma AdmittedOnce(states: seq<State>, actions: seq<Action>, i: nat, a: nat, b: nat)
    requires Run(states, actions) && i < |states| && a < |states[i].subjects| && b < |states[i].subjects|
    requires states[i].subjects[a].lease == states[i].subjects[b].lease
    ensures a == b
  {
    RunKeepsInv(states, actions, i);
  }

  /** A subject is admitted only while not draining, from a pending lease, with the stored binding equal
      to the lease's and the policy that was evaluated still in force. */
  ghost predicate Rightful(s: State, x: Subject) {
    && x.candidate in s.candidates && s.candidates[x.candidate].lease == x.lease && s.candidates[x.candidate].used
    && !s.draining && IsPending(s, x.lease) && x.at == s.store
    && P.Current(s.store.rows, s.leases[x.lease].binding)
    && s.store.revision == s.candidates[x.candidate].revision && s.store.policy == s.candidates[x.candidate].policy
  }

  /** The second state has the subjects of the first and at most one more, admitted rightfully. */
  ghost predicate AdmitsRightfully(s: State, s': State) {
    || s'.subjects == s.subjects
    || (s'.subjects != [] && s'.subjects[..|s'.subjects| - 1] == s.subjects
         && Rightful(s, s'.subjects[|s'.subjects| - 1]))
  }

  lemma ConfirmIsRightful(s: State, t: nat, alive: bool)
    requires Inv(s) && Enabled(s, Confirm(t, alive))
    ensures AdmitsRightfully(s, DoConfirm(s, t, alive))
  {
    assert Holds(s, s.threads[t].candidate);
  }

  lemma StepIsRightful(s: State, a: Action)
    requires Inv(s) && Enabled(s, a)
    ensures AdmitsRightfully(s, Apply(s, a))
  {
    if a.Confirm? {
      ConfirmIsRightful(s, a.t, a.alive);
    }
  }

  /** Every step of every run admits nobody or exactly one subject, rightfully. */
  lemma AdmittedRightfully(states: seq<State>, actions: seq<Action>, i: nat)
    requires Run(states, actions) && i < |actions|
    ensures AdmitsRightfully(states[i], states[i + 1])
  {
    RunKeepsInv(states, actions, i);
    StepIsRightful(states[i], actions[i]);
  }

  /** The lease's principal has moved past the lease. */
  predicate Outdated(s: State, l: nat) {
    && l in s.leases && s.leases[l].binding.principal in s.store.rows
    && s.leases[l].binding.revision < s.store.rows[s.leases[l].binding.principal].revision
  }

  lemma StepKeepsOutdated(s: State, a: Action, l: nat)
    requires Linked(s) && Enabled(s, a) && Outdated(s, l)
    ensures Outdated(Apply(s, a), l)
  {
    StepGrowsLeases(s, a);
    StoreMoves(s, a);
  }

  lemma MutationOutdates(s: State, a: Action, l: nat)
    requires Linked(s) && Behind(s) && Enabled(s, a) && a.Mutate? && l in s.leases
    requires P.Affected(a.m) == Some(s.leases[l].binding.principal)
    ensures Outdated(Apply(s, a), l)
  {
    P.StepAdvances(s.store, a.m, a.after, s.leases[l].binding.principal);
  }

  function AdmittedLeases(s: State): set<nat> {
    set x | x in s.subjects :: x.lease
  }

  lemma OutdatedIsNotAdmitted(s: State, s': State, l: nat)
    requires AdmitsRightfully(s, s') && Outdated(s, l) && l in AdmittedLeases(s')
    ensures l in AdmittedLeases(s)
  {
    if s'.subjects != s.subjects {
      var last := s'.subjects[|s'.subjects| - 1];
      OutdatedIsNotRightful(s, last);
      assert last.lease != l;
      assert s'.subjects == s.subjects + [last];
    }
  }

  lemma OutdatedIsNotRightful(s: State, x: Subject)
    ensures !(Rightful(s, x) && Outdated(s, x.lease))
  {
  }

  lemma OutdatedStep(s: State, a: Action, l: nat)
    requires Inv(s) && Enabled(s, a) && Outdated(s, l)
    ensures Outdated(Apply(s, a), l) && (l in AdmittedLeases(Apply(s, a)) ==> l in AdmittedLeases(s))
  {
    StepKeepsOutdated(s, a, l);
    StepIsRightful(s, a);
    if l in AdmittedLeases(Apply(s, a)) {
      OutdatedIsNotAdmitted(s, Apply(s, a), l);
    }
  }

  lemma {:induction false} OutdatedNeverAdmitted(states: seq<State>, actions: seq<Action>, i: nat, j: nat, l: nat)
    requires Run(states, actions) && i <= j < |states| && Outdated(states[i], l)
    ensures Outdated(states[j], l) && (l in AdmittedLeases(states[j]) ==> l in AdmittedLeases(states[i]))
  {
    if i < j {
      OutdatedNeverAdmitted(states, actions, i, j - 1, l);
      RunKeepsInv(states, actions, j - 1);
      OutdatedStep(states[j - 1], actions[j - 1], l);
    }
  }

  /** Issuing, revoking or editing a principal is a fence: a lease taken before it is not admitted after
      it, even by a confirmation that was already under way. */
  lemma MutationFences(states: seq<State>, actions: seq<Action>, k: nat, j: nat, l: nat)
    requires Run(states, actions) && k < j < |states| && actions[k].Mutate? && l in states[k].leases
    requires P.Affected(actions[k].m) == Some(states[k].leases[l].binding.principal)
    requires l in AdmittedLeases(states[j])
    ensures l in AdmittedLeases(states[k])
  {
    RunKeepsInv(states, actions, k);
    MutationOutdates(states[k], actions[k], l);
    OutdatedNeverAdmitted(states, actions, k + 1, j, l);
    MutationAdmitsNobody(states[k], actions[k]);
  }

  lemma MutationAdmitsNobody(s: State, a: Action)
    requires Enabled(s, a) && a.Mutate?
    ensures Apply(s, a).subjects == s.subjects
  {
  }

  // ---- where candidates and subjects come from --------------------------------------------

  /** The action is an allowing evaluation of a pending lease whose binding is the stored one, and the
      candidate records that lease, the revision and the policy of that moment. */
  ghost predicate Allows(s: State, a: Action, c: nat, candidate: Candidate) {
    && a.Evaluate? && a.c == c && a.allowed && a.t in s.threads && s.threads[a.t] == Evaluating(candidate.lease)
    && IsPending(s, candidate.lease) && P.Current(s.store.rows, s.leases[candidate.lease].binding)
    && candidate.revision == s.store.revision && candidate.policy == s.store.policy
  }

  lemma CandidateMoves(s: State, a: Action, c: nat)
    requires Enabled(s, a) && c in Apply(s, a).candidates
    ensures var candidate := Apply(s, a).candidates[c];
      if c in s.candidates then candidate.(used := s.candidates[c].used) == s.candidates[c]
      else Allows(s, a, c, candidate) && !candidate.used
  {
  }

  /** Every candidate goes back to an evaluation that allowed, of a pending lease with a current binding,
      and stands for the revision and the policy that were evaluated. */
  lemma {:induction false} CandidateOrigin(states: seq<State>, actions: seq<Action>, i: nat, c: nat) returns (j: nat)
    requires Run(states, actions) && i < |states| && c in states[i].candidates
    ensures j < i && Allows(states[j], actions[j], c, states[i].candidates[c])
  {
    var last := i - 1;
    CandidateMoves(states[last], actions[last], c);
    if c in states[last].candidates {
      j := CandidateOrigin(states, actions, last, c);
    } else {
      j := last;
    }
  }

  /** The subject's candidate is its lease's. */
  ghost predicate Backed(s: State, x: Subject) {
    x.candidate in s.candidates && s.candidates[x.candidate].lease == x.lease && s.candidates[x.candidate].used
  }

  lemma StepKeepsBacked(s: State, s': State, x: Subject)
    requires AdmitsRightfully(s, s') && CandidatesGrow(s, s') && x in s'.subjects && (x in s.subjects ==> Backed(s, x))
    ensures Backed(s', x)
  {
    if x !in s.subjects {
      var last := s'.subjects[|s'.subjects| - 1];
      assert s'.subjects == s.subjects + [last];
      assert x == last;
    }
  }

  lemma {:induction false} SubjectsAreBacked(states: seq<State>, actions: seq<Action>, i: nat, x: Subject)
    requires Run(states, actions) && i < |states| && x in states[i].subjects
    ensures Backed(states[i], x)
  {
    var last := i - 1;
    if x in states[last].subjects {
      SubjectsAreBacked(states, actions, last, x);
    }
    RunKeepsInv(states, actions, last);
    StepIsRightful(states[last], actions[last]);
    StepGrowsCandidates(states[last], actions[last]);
    StepKeepsBacked(states[last], states[i], x);
  }

  /** Nobody is admitted without an evaluation of that very lease that allowed. */
  lemma SubjectOrigin(states: seq<State>, actions: seq<Action>, i: nat, x: Subject) returns (j: nat)
    requires Run(states, actions) && i < |states| && x in states[i].subjects
    ensures x.candidate in states[i].candidates && states[i].candidates[x.candidate].lease == x.lease
    ensures j < i && Allows(states[j], actions[j], x.candidate, states[i].candidates[x.candidate])
  {
    SubjectsAreBacked(states, actions, i, x);
    j := CandidateOrigin(states, actions, i, x.candidate);
  }

  // ---- and that they do come ---------------------------------------------------------------

  /** An allowing evaluation of a pending lease with a current binding leaves an unused candidate; any other
      leaves none. Either way the gate is free. */
  lemma EvaluationDecides(s: State, t: nat, c: nat, allowed: bool)
    requires Inv(s) && Enabled(s, Evaluate(t, c, allowed))
    ensures var s', l := Apply(s, Evaluate(t, c, allowed)), s.threads[t].lease;
      && s'.gate == None && t !in s'.threads
      && if allowed && IsPending(s, l) && P.Current(s.store.rows, s.leases[l].binding)
         then c in s'.candidates && s'.candidates[c] == Candidate(l, s.store.revision, s.store.policy, false)
         else s'.candidates == s.candidates
  {
  }

  /** A check passes exactly when the stored binding is the lease's and the revision the candidate's. */
  lemma CheckDecides(s: State, t: nat)
    requires Inv(s) && Enabled(s, Check(t))
    ensures var s', c := Apply(s, Check(t)), s.threads[t].candidate;
      if P.Current(s.store.rows, s.leases[s.candidates[c].lease].binding)
          && s.store.revision == s.candidates[c].revision
      then t in s'.threads && s'.threads[t] == Checked(c)
      else t !in s'.threads && s'.gate == None
  {
  }

  /** A confirmation that is alive and not draining admits a lease that is still pending, as one subject;
      otherwise nobody is admitted. Either way the gate is free. */
  lemma ConfirmationDecides(s: State, t: nat, alive: bool)
    requires Inv(s) && Enabled(s, Confirm(t, alive))
    ensures var s', c := Apply(s, Confirm(t, alive)), s.threads[t].candidate;
      && s'.gate == None && t !in s'.threads
      && if alive && !s.draining && IsPending(s, s.candidates[c].lease)
         then s'.subjects == s.subjects + [Subject(s.candidates[c].lease, c, s.store)]
              && s'.leases[s.candidates[c].lease].phase == Admitted
         else s'.subjects == s.subjects && s'.leases == s.leases
  {
  }

  /** The move of a phase that an action may make: to admitted by a confirmation, to cancelled by a mutation
      or a drain, to released by the lease's holder. */
  predicate MayMove(a: Action, l: nat, from: Phase, to: Phase) {
    || to == from
    || (from == Pending && to == Admitted && a.Confirm?)
    || (from == Pending && to == Cancelled && (a.Cancel? || a.CancelDrained?) && a.l == l)
    || (from in {Pending, Admitted} && to == Released && a.Release? && a.l == l)
  }

  lemma PhaseMoves(s: State, a: Action, l: nat)
    requires Linked(s) && Enabled(s, a) && l in s.leases
    ensures l in Apply(s, a).leases && MayMove(a, l, s.leases[l].phase, Apply(s, a).leases[l].phase)
  {
  }

  /** A new lease is pending, with the binding that was current. */
  lemma LeaseBegins(s: State, a: Action, l: nat)
    requires Enabled(s, a) && l in Apply(s, a).leases && l !in s.leases
    ensures Apply(s, a).leases[l].phase == Pending
    ensures a == Register(l, Apply(s, a).leases[l].binding) && P.Current(s.store.rows, a.binding)
  {
  }

  /** Cancelling and releasing do what they say. */
  lemma LeaseEnds(s: State, a: Action)
    requires Enabled(s, a) && (a.Cancel? || a.CancelDrained? || a.Release?)
    ensures a.l in Apply(s, a).leases && Apply(s, a).leases[a.l].phase == if a.Release? then Released else Cancelled
  {
  }

  /** A used candidate stays used, and a claim takes only an unused one. */
  lemma {:induction false} UsedStays(states: seq<State>, actions: seq<Action>, i: nat, j: nat, c: nat)
    requires Run(states, actions) && i <= j < |states| && c in states[i].candidates && states[i].candidates[c].used
    ensures c in states[j].candidates && states[j].candidates[c].used
  {
    if i < j {
      UsedStays(states, actions, i, j - 1, c);
      RunKeepsInv(states, actions, j - 1);
      StepGrowsCandidates(states[j - 1], actions[j - 1]);
    }
  }

  /** A candidate is claimed by one confirmation at most, ever. */
  lemma ClaimedOnce(states: seq<State>, actions: seq<Action>, i: nat, j: nat)
    requires Run(states, actions) && i < |actions| && j < |actions| && actions[i].Claim? && actions[j].Claim?
    requires actions[i].c == actions[j].c
    ensures i == j
  {
    ClaimedBefore(states, actions, i, j);
    ClaimedBefore(states, actions, j, i);
  }

  lemma ClaimedBefore(states: seq<State>, actions: seq<Action>, i: nat, j: nat)
    requires Run(states, actions) && i < |actions| && j < |actions| && actions[i].Claim? && actions[j].Claim?
    requires actions[i].c == actions[j].c
    ensures !(i < j)
  {
    assert Enabled(states[j], actions[j]);
    if i < j {
      ClaimUses(states[i], actions[i]);
      UsedStays(states, actions, i + 1, j, actions[i].c);
    }
  }

  lemma ClaimUses(s: State, a: Action)
    requires Enabled(s, a) && a.Claim?
    ensures a.c in Apply(s, a).candidates && Apply(s, a).candidates[a.c].used
    ensures a.t in Apply(s, a).threads && Apply(s, a).threads[a.t] == Claimed(a.c)
  {
  }

  /** A claimed confirmation that gets the gate goes on with its candidate; one that does not is over. */
  lemma GateDecides(s: State, t: nat, taken: bool)
    requires Enabled(s, TakeGate(t, taken))
    ensures var s' := Apply(s, TakeGate(t, taken));
      if taken then s'.gate == Some(t) && s'.threads == s.threads[t := Fenced(s.threads[t].candidate)]
      else s'.gate == s.gate && s'.threads == s.threads - {t}
  {
  }

  /** Once draining, always draining, and nobody is admitted any more. */
  lemma DrainingStep(s: State, a: Action)
    requires Inv(s) && Enabled(s, a) && s.draining
    ensures Apply(s, a).draining && Apply(s, a).subjects == s.subjects
  {
    StepIsRightful(s, a);
  }

  lemma DrainBegins(s: State)
    requires Enabled(s, BeginDrain)
    ensures Apply(s, BeginDrain).draining && Apply(s, BeginDrain).subjects == s.subjects
  {
  }

  lemma {:induction false} DrainStopsAdmission(states: seq<State>, actions: seq<Action>, i: nat, j: nat)
    requires Run(states, actions) && i < j < |states| && actions[i] == BeginDrain
    ensures states[j].draining && states[j].subjects == states[i].subjects
  {
    if j == i + 1 {
      DrainBegins(states[i]);
    } else {
      DrainStopsAdmission(states, actions, i, j - 1);
      RunKeepsInv(states, actions, j - 1);
      DrainingStep(states[j - 1], actions[j - 1]);
    }
  }

  // ---- leases that a mutation left behind -------------------------------------------------

  /** The gate's holder is cancelling this principal's leases. */
  predicate CancelsFor(s: State, principal: nat) {
    s.gate.Some? && s.gate.value in s.threads && s.threads[s.gate.value] == Cancelling(Some(principal))
  }

  /** A pending lease that its principal has moved past is about to be cancelled. */
  ghost predicate Prompt(s: State) {
    forall l :: IsPending(s, l) && Outdated(s, l) ==> CancelsFor(s, s.leases[l].binding.principal)
  }

  lemma OnlyAffectedLag(s: State, a: Action, l: nat)
    requires Behind(s) && a.Mutate? && Enabled(s, a) && l in s.leases && !Outdated(s, l)
    ensures Outdated(Apply(s, a), l) ==> P.Affected(a.m) == Some(s.leases[l].binding.principal)
  {
    if P.Affected(a.m).None? {
      P.PolicyStores(s.store, a.m, a.after);
    } else {
      P.StepStores(s.store, a.m, a.after);
    }
  }

  lemma MutationKeepsPrompt(s: State, a: Action)
    requires Inv(s) && Prompt(s) && a.Mutate? && Enabled(s, a)
    ensures Prompt(Apply(s, a))
  {
    var s' := Apply(s, a);
    forall l | IsPending(s', l) && Outdated(s', l)
      ensures CancelsFor(s', s'.leases[l].binding.principal)
    {
      assert IsPending(s, l) && !Outdated(s, l);
      OnlyAffectedLag(s, a, l);
    }
  }

  lemma FinishKeepsPrompt(s: State, t: nat)
    requires Inv(s) && Prompt(s) && Enabled(s, FinishMutation(t))
    ensures Prompt(Apply(s, FinishMutation(t)))
  {
    var s' := Apply(s, FinishMutation(t));
    assert s.gate == Some(t);
    forall l | IsPending(s', l)
      ensures !Outdated(s', l)
    {
      assert IsPending(s, l) && (Outdated(s, l) ==> CancelsFor(s, s.leases[l].binding.principal));
    }
  }

  lemma RegisterKeepsPrompt(s: State, l: nat, b: P.Binding)
    requires Inv(s) && Prompt(s) && Enabled(s, Register(l, b))
    ensures Prompt(Apply(s, Register(l, b)))
  {
    var s' := Apply(s, Register(l, b));
    P.VerifyAnswers(s.store, b);
    assert !Outdated(s', l);
    assert forall k :: k != l && IsPending(s', k) && Outdated(s', k) ==> IsPending(s, k) && Outdated(s, k);
  }

  /** No other action leaves a lease behind or lets go of a gate that is held for cancelling. */
  lemma OthersKeepPrompt(s: State, a: Action)
    requires Inv(s) && Prompt(s) && Enabled(s, a) && !a.Mutate? && !a.FinishMutation? && !a.Register?
    ensures Prompt(Apply(s, a))
  {
    var s' := Apply(s, a);
    StepGrowsLeases(s, a);
    StoreMoves(s, a);
    forall l | IsPending(s', l) && Outdated(s', l)
      ensures CancelsFor(s', s'.leases[l].binding.principal)
    {
      KeepsLeases(s, a, l);
      assert IsPending(s, l) && Outdated(s, l);
      KeepsCancelling(s, a, s.leases[l].binding.principal);
    }
  }

  lemma KeepsLeases(s: State, a: Action, l: nat)
    requires Enabled(s, a) && !a.Register? && l in Apply(s, a).leases
    ensures l in s.leases
  {
  }

  lemma KeepsCancelling(s: State, a: Action, principal: nat)
    requires Gated(s) && Enabled(s, a) && CancelsFor(s, principal) && !a.FinishMutation?
    ensures CancelsFor(Apply(s, a), principal)
  {
  }

  lemma {:induction false} RunIsPrompt(states: seq<State>, actions: seq<Action>, i: nat)
    requires Run(states, actions) && i < |states|
    ensures Prompt(states[i])
  {
    if i > 0 {
      var s, a := states[i - 1], actions[i - 1];
      RunIsPrompt(states, actions, i - 1);
      RunKeepsInv(states, actions, i - 1);
      if a.Mutate? {
        MutationKeepsPrompt(s, a);
      } else if a.FinishMutation? {
        FinishKeepsPrompt(s, a.t);
      } else if a.Register? {
        RegisterKeepsPrompt(s, a.l, a.binding);
      } else {
        OthersKeepPrompt(s, a);
      }
    }
  }

  /** Whenever nobody is cancelling, no pending lease lags behind its principal: what a mutation outdates it
      cancels before it lets anyone else through. */
  lemma PendingIsUpToDate(states: seq<State>, actions: seq<Action>, i: nat, l: nat)
    requires Run(states, actions) && i < |states| && IsPending(states[i], l)
    requires !CancelsFor(states[i], states[i].leases[l].binding.principal)
    ensures var b := states[i].leases[l].binding;
      b.principal in states[i].store.rows && b.revision == states[i].store.rows[b.principal].revision
  {
    RunKeepsInv(states, actions, i);
    RunIsPrompt(states, actions, i);
  }

  /** What may happen: with the gate free and no drain, a current binding is leased, a pending lease is
      evaluated and a claimed confirmation gets the gate; an unused candidate may always be claimed; the
      gate's holder may always go on; a mutation needs the gate alone; leases may be released at any time. */
  lemma MayHappen(s: State, t: nat, l: nat, c: nat, b: P.Binding, m: P.Mutation, after: P.Store)
    requires Inv(s)
    ensures (s.gate == None && !s.draining && l !in s.leases && P.Available(s.store.rows)
             && P.Current(s.store.rows, b)) ==> Enabled(s, Register(l, b))
    ensures s.gate == None && !s.draining && t !in s.threads && IsPending(s, l) ==> Enabled(s, BeginEvaluation(t, l))
    ensures t !in s.threads && c in s.candidates && !s.candidates[c].used ==> Enabled(s, Claim(t, c))
    ensures t in s.threads && s.threads[t] == Claimed(c) ==>
              Enabled(s, TakeGate(t, false)) && (s.gate == None && !s.draining ==> Enabled(s, TakeGate(t, true)))
    ensures t in s.threads && s.threads[t] == Evaluating(l) && c !in s.candidates ==> Enabled(s, Evaluate(t, c, true))
    ensures t in s.threads && s.threads[t] == Fenced(c) ==> Enabled(s, Check(t))
    ensures t in s.threads && s.threads[t] == Checked(c) ==> Enabled(s, Confirm(t, true))
    ensures s.gate == None && t !in s.threads && P.Step(s.store, m, after) ==> Enabled(s, Mutate(t, m, after))
    ensures IsPending(s, l) ==> Enabled(s, Release(l))
  {
  }
}

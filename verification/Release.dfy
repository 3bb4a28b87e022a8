/** Whole release runs against a shared registry: any number of runs, each interruptible at any call
    and restartable, publish in plan order and finally sweep every package again. */
module Release {
  import opened Common
  import opened Evidence
  import opened Publish
  import Sorting
  import Versions
  import Plan

  /** What the runs share, apart from the registry: the publication order and the retry budget. */
  datatype Setup = Setup(plan: seq<PackageRecord>, retries: int)

  /** A run of the publisher; `observations` is what it has accepted in its current pass. */
  datatype RunState =
    | Deliver(position: nat, pc: Pc, observations: map<Name, Observation>)
    | Sweep(position: nat, observations: map<Name, Observation>)
    | Swept(observations: map<Name, Observation>)

  /** The registry's content for this release's versions, the live runs, and the plan positions whose
      publishes may still reach the registry, also after their run has ended. */
  datatype State = State(registry: map<Name, Registry>, runs: map<nat, RunState>, inFlight: set<nat>)

  /** Each dependency stands earlier in the plan than its dependent; names occur once. */
  ghost predicate ValidPlan(plan: seq<PackageRecord>) {
    && (forall i, j :: 0 <= i < j < |plan| ==> plan[i].name != plan[j].name)
    && (forall i, d :: 0 <= i < |plan| && d in plan[i].internalDependencies ==> exists j ::
          0 <= j < i && plan[j].name == d)
  }

  /** The registry holds a package with exactly its expected evidence. */
  predicate Held(registry: map<Name, Registry>, r: PackageRecord) {
    r.name in registry && registry[r.name] == RegistryOf(r)
  }

  ghost predicate HeldUpTo(registry: map<Name, Registry>, plan: seq<PackageRecord>, n: nat) {
    n <= |plan| && forall i :: 0 <= i < n ==> Held(registry, plan[i])
  }

  /** Whenever a package of the release is there, so is every package it depends on. */
  ghost predicate DependencyClosed(registry: map<Name, Registry>, plan: seq<PackageRecord>) {
    forall i, d :: 0 <= i < |plan| && Held(registry, plan[i]) && d in plan[i].internalDependencies ==>
                     exists j :: 0 <= j < i && plan[j].name == d && Held(registry, plan[j])
  }

  // ---------------------------------------------------------------- steps

  datatype Step =
    | Start(id: nat) | Crash(id: nat) | Call(id: nat, event: Event) | Recheck(id: nat, answer: ObserveAnswer)
    | Arrive(position: nat)

  predicate Awaits(pc: Pc, event: Event) {
    match event
    case Read(_) => pc.Reading?
    case Observe(_) => pc.Observing? || pc.Racing? || pc.Retrying?
    case Attempt(_) => pc.Publishing?
    case Sleep => false
  }

  /** Reads may lag, miss or fail; what they do show is what the registry holds. */
  predicate Truthful(registry: map<Name, Registry>, name: Name, answer: ObserveAnswer) {
    answer.Seen? ==> name in registry && answer.observation.registry == registry[name]
  }

  /** A version can be created once and never changes. */
  predicate Lands(before: map<Name, Registry>, after: map<Name, Registry>, r: PackageRecord) {
    r.name !in before && after == before[r.name := RegistryOf(r)]
  }

  /** Whatever its answer, a publish has landed or has not landed yet. */
  predicate RegistryStep(before: map<Name, Registry>, after: map<Name, Registry>, r: PackageRecord, event: Event) {
    match event
    case Attempt(_) => after == before || Lands(before, after, r)
    case Observe(answer) => after == before && Truthful(before, r.name, answer)
    case _ => after == before
  }

  /** The run after its operation moved to `pc`: done packages advance the pass, errors end the run. */
  function AfterCall(setup: Setup, run: RunState, pc: Pc): Option<RunState>
    requires run.Deliver? && run.position < |setup.plan|
  {
    match pc
    case Threw(_) => None
    case Returned(o) =>
      var observations := run.observations[setup.plan[run.position].name := o];
      if run.position + 1 < |setup.plan| then Some(Deliver(run.position + 1, Reading, observations))
          else Some(Sweep(0, map[]))
    case _ => Some(run.(pc := pc))
  }

  function AfterRecheck(setup: Setup, run: RunState, answer: ObserveAnswer): Option<RunState>
    requires run.Sweep? && run.position < |setup.plan|
  {
    var r := setup.plan[run.position];
    if !answer.Seen? || ExactError(r, answer.observation).Some? then None
    else
      var observations := run.observations[r.name := answer.observation];
      if run.position + 1 < |setup.plan| then Some(Sweep(run.position + 1, observations)) else Some(Swept(observations))
  }

  function WithRun(runs: map<nat, RunState>, id: nat, run: Option<RunState>): map<nat, RunState> {
    if run.Some? then runs[id := run.value] else runs - {id}
  }

  predicate Next(setup: Setup, s: State, s': State, step: Step) {
    match step
    case Start(id) =>
      id !in s.runs && setup.plan != [] && s' == s.(runs := s.runs[id := Deliver(0, Reading, map[])])
    case Crash(id) =>
      id in s.runs && s' == s.(runs := s.runs - {id})
    case Call(id, event) =>
      && id in s.runs && s.runs[id].Deliver? && s.runs[id].position < |setup.plan| && Awaits(s.runs[id].pc, event)
      && var r := setup.plan[s.runs[id].position];
         && RegistryStep(s.registry, s'.registry, r, event)
         && s'.inFlight == (if event.Attempt? then s.inFlight + {s.runs[id].position} else s.inFlight)
         && s'.runs == WithRun(s.runs, id,
                               AfterCall(setup, s.runs[id], Advance(r, setup.retries, s.runs[id].pc, event)))
    case Recheck(id, answer) =>
      && id in s.runs && s.runs[id].Sweep? && s.runs[id].position < |setup.plan|
      && Truthful(s.registry, setup.plan[s.runs[id].position].name, answer)
      && s' == s.(runs := WithRun(s.runs, id, AfterRecheck(setup, s.runs[id], answer)))
    case Arrive(position) => // a publish that its run gave up on or did not live to see
      && position in s.inFlight && position < |setup.plan|
      && Lands(s.registry, s'.registry, setup.plan[position]) && s' == s.(registry := s'.registry)
  }

  /** No run yet; the registry may already hold part of the release, from earlier attempts. */
  ghost predicate Init(setup: Setup, s: State) {
    s.runs == map[] && s.inFlight == {} && DependencyClosed(s.registry, setup.plan)
  }

  ghost predicate IsBehavior(setup: Setup, states: seq<State>, steps: seq<Step>) {
    && |states| == |steps| + 1 && Init(setup, states[0])
    && forall i :: 0 <= i < |steps| ==> Next(setup, states[i], states[i + 1], steps[i])
  }

  // ---------------------------------------------------------------- the invariant

  /** The first `n` packages were observed, each with exactly its expected evidence. */
  ghost predicate Observed(observations: map<Name, Observation>, plan: seq<PackageRecord>, n: nat) {
    n <= |plan| && forall i :: 0 <= i < n ==> plan[i].name in observations && Exact(plan[i], observations[plan[i].name])
  }

  ghost predicate RunOk(setup: Setup, registry: map<Name, Registry>, run: RunState) {
    match run
    case Deliver(position, pc, observations) =>
      position < |setup.plan| && HeldUpTo(registry, setup.plan, position)
          && Observed(observations, setup.plan, position)
      && !pc.Returned? && !pc.Threw?
    case Sweep(position, observations) =>
      position < |setup.plan| && HeldUpTo(registry, setup.plan, |setup.plan|)
          && Observed(observations, setup.plan, position)
    case Swept(observations) =>
      HeldUpTo(registry, setup.plan, |setup.plan|) && Observed(observations, setup.plan, |setup.plan|)
  }

  ghost predicate Inv(setup: Setup, s: State) {
    && DependencyClosed(s.registry, setup.plan)
    && (forall id :: id in s.runs ==> RunOk(setup, s.registry, s.runs[id]))
    && forall i :: i in s.inFlight ==> HeldUpTo(s.registry, setup.plan, i)
  }

  /** The registry only gains packages. */
  ghost predicate Grows(before: map<Name, Registry>, after: map<Name, Registry>) {
    forall n :: n in before ==> n in after && after[n] == before[n]
  }

  lemma StepGrows(setup: Setup, s: State, s': State, step: Step)
    requires Next(setup, s, s', step)
    ensures Grows(s.registry, s'.registry)
  {
  }

  lemma GrowthKeepsRun(setup: Setup, before: map<Name, Registry>, after: map<Name, Registry>, run: RunState)
    requires Grows(before, after) && RunOk(setup, before, run)
    ensures RunOk(setup, after, run)
  {
  }

  lemma LandingKeepsClosed(plan: seq<PackageRecord>, before: map<Name, Registry>, after: map<Name, Registry>, i: nat)
    requires ValidPlan(plan) && DependencyClosed(before, plan) && i < |plan|
    requires HeldUpTo(before, plan, i) && Lands(before, after, plan[i])
    ensures DependencyClosed(after, plan)
  {
    hide Held, Lands;
    forall k, d | 0 <= k < |plan| && Held(after, plan[k]) && d in plan[k].internalDependencies
      ensures exists j :: 0 <= j < k && plan[j].name == d && Held(after, plan[j])
    {
      var j: int;
      if k == i {
        j :| 0 <= j < i && plan[j].name == d;
      } else {
        HeldEarlier(before, after, plan[i], plan[k]);
        j :| 0 <= j < k && plan[j].name == d && Held(before, plan[j]);
      }
      HeldLater(before, after, plan[i], plan[j]);
    }
  }

  lemma HeldLater(before: map<Name, Registry>, after: map<Name, Registry>, landed: PackageRecord, r: PackageRecord)
    requires Lands(before, after, landed) && Held(before, r)
    ensures Held(after, r)
  {
  }

  lemma HeldEarlier(before: map<Name, Registry>, after: map<Name, Registry>, landed: PackageRecord, r: PackageRecord)
    requires Lands(before, after, landed) && Held(after, r) && r.name != landed.name
    ensures Held(before, r)
  {
  }

  lemma CallKeepsClosed(setup: Setup, s: State, s': State, id: nat, event: Event)
    requires ValidPlan(setup.plan) && Inv(setup, s) && Next(setup, s, s', Call(id, event))
    ensures DependencyClosed(s'.registry, setup.plan)
  {
    var run := s.runs[id];
    assert RunOk(setup, s.registry, run);
    if s'.registry != s.registry {
      hide DependencyClosed, ValidPlan;
      LandingKeepsClosed(setup.plan, s.registry, s'.registry, run.position);
    }
  }

  /** A returned observation shows the package in the registry. */
  lemma ReturnMeansHeld(setup: Setup, s: State, s': State, id: nat, event: Event)
    requires Next(setup, s, s', Call(id, event)) && !s.runs[id].pc.Returned?
    requires Advance(setup.plan[s.runs[id].position], setup.retries, s.runs[id].pc, event).Returned?
    ensures var r := setup.plan[s.runs[id].position];
            var o := Advance(r, setup.retries, s.runs[id].pc, event).observation;
            Held(s'.registry, r) && Exact(r, o)
  {
  }

  lemma ObserveOne(observations: map<Name, Observation>, plan: seq<PackageRecord>, n: nat, o: Observation)
    requires ValidPlan(plan) && n < |plan| && Observed(observations, plan, n) && Exact(plan[n], o)
    ensures Observed(observations[plan[n].name := o], plan, n + 1)
  {
    hide Exact;
    forall i | 0 <= i < n ensures plan[i].name != plan[n].name { }
  }

  lemma HoldOne(registry: map<Name, Registry>, plan: seq<PackageRecord>, n: nat)
    requires n < |plan| && HeldUpTo(registry, plan, n) && Held(registry, plan[n])
    ensures HeldUpTo(registry, plan, n + 1)
  {
  }

  lemma CallKeepsRun(setup: Setup, s: State, s': State, id: nat, event: Event)
    requires ValidPlan(setup.plan) && Inv(setup, s) && Next(setup, s, s', Call(id, event)) && id in s'.runs
    ensures RunOk(setup, s'.registry, s'.runs[id])
  {
    var run := s.runs[id];
    var r := setup.plan[run.position];
    var pc := Advance(r, setup.retries, run.pc, event);
    StepGrows(setup, s, s', Call(id, event));
    GrowthKeepsRun(setup, s.registry, s'.registry, run);
    if pc.Returned? {
      ReturnMeansHeld(setup, s, s', id, event);
      ObserveOne(run.observations, setup.plan, run.position, pc.observation);
      HoldOne(s'.registry, setup.plan, run.position);
    }
  }

  lemma RecheckKeepsRun(setup: Setup, s: State, s': State, id: nat, answer: ObserveAnswer)
    requires ValidPlan(setup.plan) && Inv(setup, s) && Next(setup, s, s', Recheck(id, answer)) && id in s'.runs
    ensures RunOk(setup, s'.registry, s'.runs[id])
  {
    var run := s.runs[id];
    assert RunOk(setup, s.registry, run);
    ObserveOne(run.observations, setup.plan, run.position, answer.observation);
  }

  lemma InvStep(setup: Setup, s: State, s': State, step: Step)
    requires ValidPlan(setup.plan) && Inv(setup, s) && Next(setup, s, s', step)
    ensures Inv(setup, s')
  {
    StepKeepsClosed(setup, s, s', step);
    StepKeepsInFlight(setup, s, s', step);
    hide DependencyClosed, RunOk, Next, HeldUpTo;
    forall id | id in s'.runs ensures RunOk(setup, s'.registry, s'.runs[id]) { StepKeepsRun(setup, s, s', step, id); }
  }

  lemma StepKeepsClosed(setup: Setup, s: State, s': State, step: Step)
    requires ValidPlan(setup.plan) && Inv(setup, s) && Next(setup, s, s', step)
    ensures DependencyClosed(s'.registry, setup.plan)
  {
    hide DependencyClosed, ValidPlan, RunOk;
    if step.Call? { CallKeepsClosed(setup, s, s', step.id, step.event); }
    if step.Arrive? { LandingKeepsClosed(setup.plan, s.registry, s'.registry, step.position); }
  }

  /** What is in flight was sent after everything before it in the plan was there. */
  lemma StepKeepsInFlight(setup: Setup, s: State, s': State, step: Step)
    requires Inv(setup, s) && Next(setup, s, s', step)
    ensures forall i :: i in s'.inFlight ==> HeldUpTo(s'.registry, setup.plan, i)
  {
    StepGrows(setup, s, s', step);
    hide DependencyClosed;
    forall i | i in s'.inFlight ensures HeldUpTo(s'.registry, setup.plan, i) {
      if i !in s.inFlight { assert RunOk(setup, s.registry, s.runs[step.id]); }
      HeldStays(s.registry, s'.registry, setup.plan, i);
    }
  }

  lemma HeldStays(before: map<Name, Registry>, after: map<Name, Registry>, plan: seq<PackageRecord>, n: nat)
    requires Grows(before, after)
    ensures HeldUpTo(before, plan, n) ==> HeldUpTo(after, plan, n)
  {
  }

  lemma StepKeepsRun(setup: Setup, s: State, s': State, step: Step, id: nat)
    requires ValidPlan(setup.plan) && Inv(setup, s) && Next(setup, s, s', step) && id in s'.runs
    ensures RunOk(setup, s'.registry, s'.runs[id])
  {
    StepGrows(setup, s, s', step);
    if !step.Arrive? && id == step.id {
      match step
      case Start(_) =>
      case Crash(_) =>
      case Call(_, event) => CallKeepsRun(setup, s, s', id, event);
      case Recheck(_, answer) => RecheckKeepsRun(setup, s, s', id, answer);
    } else {
      assert s'.runs[id] == s.runs[id];
      hide RunOk, Advance, AfterCall, AfterRecheck;
      GrowthKeepsRun(setup, s.registry, s'.registry, s.runs[id]);
    }
  }

  lemma {:induction false} InvAlways(setup: Setup, states: seq<State>, steps: seq<Step>, k: nat)
    requires ValidPlan(setup.plan) && IsBehavior(setup, states, steps) && k < |states|
    ensures Inv(setup, states[k])
  {
    hide Next, RunOk, ValidPlan, DependencyClosed;
    if k > 0 {
      InvAlways(setup, states, steps, k - 1);
      assert Next(setup, states[k - 1], states[k - 1 + 1], steps[k - 1]);
      InvStep(setup, states[k - 1], states[k], steps[k - 1]);
    }
  }

  // ---------------------------------------------------------------- the theorems

  /** Over every run history, with any crashes, restarts and overlaps: whatever part of the release is in
      the registry contains the dependencies of each of its packages. */
  lemma RegistryAlwaysDependencyClosed(setup: Setup, states: seq<State>, steps: seq<Step>, k: nat)
    requires ValidPlan(setup.plan) && IsBehavior(setup, states, steps) && k < |states|
    ensures DependencyClosed(states[k].registry, setup.plan)
  {
    InvAlways(setup, states, steps, k);
  }

  /** A publish is attempted only after every internal dependency was observed, by this very run, with
      exactly the expected evidence, and all of them are in the registry. */
  lemma PublishOnlyAfterDependencies(setup: Setup, states: seq<State>, steps: seq<Step>, k: nat)
    requires ValidPlan(setup.plan) && IsBehavior(setup, states, steps) && k < |steps|
    requires steps[k].Call? && steps[k].event.Attempt?
    ensures var s, id := states[k], steps[k].id;
            && id in s.runs && s.runs[id].Deliver? && s.runs[id].position < |setup.plan|
            && var r := setup.plan[s.runs[id].position];
               forall d :: d in r.internalDependencies ==>
                 exists j :: 0 <= j < s.runs[id].position && setup.plan[j].name == d && Held(s.registry, setup.plan[j])
                             && d in s.runs[id].observations && Exact(setup.plan[j], s.runs[id].observations[d])
  {
    InvAlways(setup, states, steps, k);
    var s, id := states[k], steps[k].id;
    assert Next(setup, states[k], states[k + 1], steps[k]);
    assert RunOk(setup, s.registry, s.runs[id]);
    var i := s.runs[id].position;
    hide Next, DependencyClosed;
    forall d | d in setup.plan[i].internalDependencies
      ensures exists j :: 0 <= j < i && setup.plan[j].name == d && Held(s.registry, setup.plan[j])
                          && d in s.runs[id].observations && Exact(setup.plan[j], s.runs[id].observations[d])
    {
      var j :| 0 <= j < i && setup.plan[j].name == d;
      assert Held(s.registry, setup.plan[j]);
    }
  }

  lemma {:induction false} GrowsAlways(setup: Setup, states: seq<State>, steps: seq<Step>, j: nat, k: nat)
    requires IsBehavior(setup, states, steps) && j <= k < |states|
    ensures Grows(states[j].registry, states[k].registry)
    decreases k
  {
    hide Next, Init;
    if j < k {
      GrowsAlways(setup, states, steps, j, k - 1);
      assert Next(setup, states[k - 1], states[k - 1 + 1], steps[k - 1]);
      StepGrows(setup, states[k - 1], states[k], steps[k - 1]);
    }
  }

  /** A run that completed its final sweep holds one exact observation of every package, so the final
      evidence it can create is the one determined by the expected evidence, and from then on the
      registry holds the complete release for good. */
  lemma SweptMeansReleased(setup: Setup, states: seq<State>, steps: seq<Step>, j: nat, k: nat, id: nat, e: Expected)
    requires ValidPlan(setup.plan) && IsBehavior(setup, states, steps) && j <= k < |states|
    requires id in states[j].runs && states[j].runs[id].Swept?
    requires forall r :: r in e.packages ==> r in setup.plan
    ensures HeldUpTo(states[k].registry, setup.plan, |setup.plan|)
    ensures AllObserved(e, states[j].runs[id].observations)
  {
    InvAlways(setup, states, steps, j);
    GrowsAlways(setup, states, steps, j, k);
    var run := states[j].runs[id];
    assert RunOk(setup, states[j].registry, run);
    hide IsBehavior, DependencyClosed, ValidPlan;
    GrowthKeepsRun(setup, states[j].registry, states[k].registry, run);
    forall i | 0 <= i < |e.packages| ensures ExactlyObserved(e.packages[i], run.observations) {
      assert e.packages[i] in setup.plan;
      var m :| 0 <= m < |setup.plan| && setup.plan[m] == e.packages[i];
      assert Exact(setup.plan[m], run.observations[setup.plan[m].name]);
    }
  }

  /** The planner's result is a plan in the sense of this module. */
  lemma PlannedOrderIsValid(c: Config, order: seq<PackageRecord>, declared: seq<PackageRecord>)
    requires Plan.PublicationOrder(order, declared) && Plan.DistinctNames(declared) && Plan.Consistent(c, declared)
    ensures ValidPlan(order)
  {
    var names, g := NamesOf(order), Plan.GraphOf(declared);
    forall i, j | 0 <= i < j < |order| ensures order[i].name != order[j].name {
      assert names[i] != names[j];
    }
    forall i, d | 0 <= i < |order| && d in order[i].internalDependencies
      ensures exists j :: 0 <= j < i && order[j].name == d
    {
      assert order[i] in declared;
      var k :| 0 <= k < |declared| && declared[k] == order[i];
      Plan.GraphEntries(declared, k);
      assert names[i] == order[i].name;
      assert d in Sorting.Elements(names[..i]);
      var j :| 0 <= j < i && names[..i][j] == d;
      assert order[j].name == d;
    }
  }

  // ---------------------------------------------------------------- a release can always be resumed

  /** No version of the plan is taken by other bytes, and every version is one a release can have. */
  ghost predicate Open(setup: Setup, registry: map<Name, Registry>) {
    && (forall i :: 0 <= i < |setup.plan| && setup.plan[i].name in registry ==> Held(registry, setup.plan[i]))
    && forall i :: 0 <= i < |setup.plan| ==> Versions.Stable(setup.plan[i].version)
  }

  /** A stretch of a behavior. */
  ghost predicate Chain(setup: Setup, states: seq<State>, steps: seq<Step>) {
    && |states| == |steps| + 1
    && forall i :: 0 <= i < |steps| ==> Next(setup, states[i], states[i + 1], steps[i])
  }

  lemma ChainJoin(setup: Setup, a: seq<State>, x: seq<Step>, b: seq<State>, y: seq<Step>)
    requires Chain(setup, a, x) && Chain(setup, b, y) && a[|x|] == b[0]
    ensures Chain(setup, a[..|x|] + b, x + y) && (a[..|x|] + b)[0] == a[0] && (a[..|x|] + b)[|x + y|] == b[|y|]
  {
    hide Next;
    var c, z := a[..|x|] + b, x + y;
    forall i | 0 <= i < |z| ensures Next(setup, c[i], c[i + 1], z[i]) {
      if i < |x| {
        assert c[i] == a[i] && c[i + 1] == a[i + 1] && z[i] == x[i];
      } else {
        assert c[i] == b[i - |x|] && c[i + 1] == b[i - |x| + 1] && z[i] == y[i - |x|];
      }
    }
  }

  function ExactObservation(r: PackageRecord): Observation {
    Observation(RegistryOf(r), Some(r.version))
  }

  lemma ExactObservationIsExact(record: PackageRecord, retries: int, pc: Pc)
    requires Versions.Stable(record.version) && (pc.Observing? || pc.Retrying?)
    ensures Exact(record, ExactObservation(record))
    ensures Advance(record, retries, pc, Observe(Seen(ExactObservation(record)))) == Returned(ExactObservation(record))
  {
    hide Versions.Stable;
    assert Exact(record, ExactObservation(record));
  }

  /** Where a run stands after it has accepted one more package. */
  function Onward(setup: Setup, position: nat, observations: map<Name, Observation>): RunState {
    if position < |setup.plan| then Deliver(position, Reading, observations) else Sweep(0, map[])
  }

  lemma OneCall(setup: Setup, s: State, id: nat, event: Event, registry: map<Name, Registry>) returns (s': State)
    requires id in s.runs && s.runs[id].Deliver? && s.runs[id].position < |setup.plan| && Awaits(s.runs[id].pc, event)
    requires RegistryStep(s.registry, registry, setup.plan[s.runs[id].position], event)
    ensures Next(setup, s, s', Call(id, event)) && s'.registry == registry
    ensures var run := s.runs[id];
            var pc := Advance(setup.plan[run.position], setup.retries, run.pc, event);
            s'.runs == WithRun(s.runs, id, AfterCall(setup, run, pc))
  {
    var run := s.runs[id];
    var pc := Advance(setup.plan[run.position], setup.retries, run.pc, event);
    s' := State(registry, WithRun(s.runs, id, AfterCall(setup, run, pc)),
                if event.Attempt? then s.inFlight + {run.position} else s.inFlight);
  }

  /** With a cooperating registry a run delivers its next package, skipping one that is already there. */
  lemma DeliverOne(setup: Setup, s: State, id: nat) returns (states: seq<State>, steps: seq<Step>)
    requires ValidPlan(setup.plan) && Open(setup, s.registry) && id in s.runs
    requires s.runs[id].Deliver? && s.runs[id].position < |setup.plan| && s.runs[id].pc == Reading
    ensures Chain(setup, states, steps) && states[0] == s
    ensures var t, run := states[|steps|], s.runs[id];
            var r := setup.plan[run.position];
            && Open(setup, t.registry) && id in t.runs
            && t.runs[id] == Onward(setup, run.position + 1, run.observations[r.name := ExactObservation(r)])
  {
    hide Versions.Stable, Exact, ExactError;
    var run := s.runs[id];
    var r := setup.plan[run.position];
    var seen := Observe(Seen(ExactObservation(r)));
    assert Versions.Stable(r.version);
    var a := OneCall(setup, s, id, Read(true), s.registry);
    ExactObservationIsExact(r, setup.retries, Observing);
    if r.name in s.registry {
      var b := OneCall(setup, a, id, seen, a.registry);
      states, steps := [s, a, b], [Call(id, Read(true)), Call(id, seen)];
    } else {
      ExactObservationIsExact(r, setup.retries, Retrying(0));
      var b := OneCall(setup, a, id, Observe(Absent), a.registry);
      var landed := b.registry[r.name := RegistryOf(r)];
      var c := OneCall(setup, b, id, Attempt(Accepted), landed);
      var d := OneCall(setup, c, id, seen, landed);
      states := [s, a, b, c, d];
      steps := [Call(id, Read(true)), Call(id, Observe(Absent)), Call(id, Attempt(Accepted)), Call(id, seen)];
      LandingStaysOpen(setup, s.registry, run.position);
    }
  }

  lemma LandingStaysOpen(setup: Setup, registry: map<Name, Registry>, i: nat)
    requires ValidPlan(setup.plan) && Open(setup, registry) && i < |setup.plan| && setup.plan[i].name !in registry
    ensures Open(setup, registry[setup.plan[i].name := RegistryOf(setup.plan[i])])
  {
    hide Versions.Stable;
    var after := registry[setup.plan[i].name := RegistryOf(setup.plan[i])];
    forall k | 0 <= k < |setup.plan| && setup.plan[k].name in after ensures Held(after, setup.plan[k]) {
      if k != i { assert setup.plan[k].name != setup.plan[i].name; }
    }
  }

  lemma {:induction false} DeliverAll(setup: Setup, s: State, id: nat) returns (states: seq<State>, steps: seq<Step>)
    requires ValidPlan(setup.plan) && Open(setup, s.registry) && id in s.runs
    requires s.runs[id].Deliver? && s.runs[id].position < |setup.plan| && s.runs[id].pc == Reading
    ensures Chain(setup, states, steps) && states[0] == s
    ensures var t := states[|steps|]; Open(setup, t.registry) && id in t.runs && t.runs[id] == Sweep(0, map[])
    decreases |setup.plan| - s.runs[id].position
  {
    hide Chain, Open, ValidPlan;
    var a, x := DeliverOne(setup, s, id);
    ChainEnds(setup, a, x);
    states, steps := a, x;
    var t := a[|x|];
    if t.runs[id].Deliver? {
      var b, y := DeliverAll(setup, t, id);
      ChainEnds(setup, b, y);
      ChainJoin(setup, a, x, b, y);
      states, steps := a[..|x|] + b, x + y;
    }
  }

  lemma ChainEnds(setup: Setup, states: seq<State>, steps: seq<Step>)
    requires Chain(setup, states, steps)
    ensures |states| == |steps| + 1
  {
  }

  lemma {:induction false} SweepAll(setup: Setup, s: State, id: nat) returns (states: seq<State>, steps: seq<Step>)
    requires Open(setup, s.registry) && id in s.runs && s.runs[id].Sweep? && s.runs[id].position < |setup.plan|
    requires HeldUpTo(s.registry, setup.plan, |setup.plan|)
    ensures Chain(setup, states, steps) && states[0] == s
    ensures var t := states[|steps|]; id in t.runs && t.runs[id].Swept?
    decreases |setup.plan| - s.runs[id].position
  {
    hide Versions.Stable, Exact, ExactError;
    var run := s.runs[id];
    var r := setup.plan[run.position];
    assert Versions.Stable(r.version) && Held(s.registry, r);
    ExactObservationIsExact(r, setup.retries, Observing);
    assert ExactError(r, ExactObservation(r)) == None;
    var answer := Seen(ExactObservation(r));
    var after := AfterRecheck(setup, run, answer);
    var t := s.(runs := WithRun(s.runs, id, after));
    states, steps := [s, t], [Recheck(id, answer)];
    assert Next(setup, s, t, steps[0]);
    if t.runs[id].Sweep? {
      var b, y := SweepAll(setup, t, id);
      ChainJoin(setup, states, steps, b, y);
      states, steps := states[..1] + b, steps + y;
    }
  }

  /** Whatever happened before, unless other bytes took a version of the plan: a new run, left alone with a
      cooperating registry, completes the release. */
  lemma ReleaseCanBeResumed(setup: Setup, states: seq<State>, steps: seq<Step>, id: nat)
    returns (more: seq<State>, rest: seq<Step>)
    requires ValidPlan(setup.plan) && setup.plan != [] && IsBehavior(setup, states, steps)
    requires Open(setup, states[|steps|].registry) && id !in states[|steps|].runs
    ensures Chain(setup, more, rest) && more[0] == states[|steps|]
    ensures var t := more[|rest|]; id in t.runs && t.runs[id].Swept? && HeldUpTo(t.registry, setup.plan, |setup.plan|)
  {
    var s := states[|steps|];
    var t := s.(runs := s.runs[id := Deliver(0, Reading, map[])]);
    assert Chain(setup, [s, t], [Start(id)]);
    InvAlways(setup, states, steps, |steps|);
    InvStep(setup, s, t, Start(id));
    hide Next, Open, ValidPlan, IsBehavior;
    var a, x := DeliverAll(setup, t, id);
    ChainJoin(setup, [s, t], [Start(id)], a, x);
    var delivered, calls := [s, t][..1] + a, [Start(id)] + x;
    ChainKeepsInv(setup, delivered, calls, s, |calls|);
    var u := delivered[|calls|];
    var b, y := SweepAll(setup, u, id);
    ChainJoin(setup, delivered, calls, b, y);
    more, rest := delivered[..|calls|] + b, calls + y;
    ChainKeepsInv(setup, more, rest, s, |rest|);
  }

  lemma {:induction false} ChainKeepsInv(setup: Setup, states: seq<State>, steps: seq<Step>, s: State, k: nat)
    requires ValidPlan(setup.plan) && Chain(setup, states, steps) && states[0] == s && Inv(setup, s) && k < |states|
    ensures Inv(setup, states[k])
    ensures forall id :: id in states[k].runs ==> RunOk(setup, states[k].registry, states[k].runs[id])
  {
    hide Next, RunOk, ValidPlan, DependencyClosed;
    if k > 0 {
      ChainKeepsInv(setup, states, steps, s, k - 1);
      assert Next(setup, states[k - 1], states[k - 1 + 1], steps[k - 1]);
      InvStep(setup, states[k - 1], states[k], steps[k - 1]);
    }
  }
}

/** The lock-free "write once or agree" file protocol: a complete temporary file is hard-linked to the
    destination, and a loser compares its bytes with the winner's. Any number of writers interleave
    arbitrarily, at the granularity of system calls and partial reads and writes, and may die anywhere. */
module WriteOnce {
  import opened Common

  /** What each writer wants to write and its temporary path; two writers may even share one. */
  datatype Setup = Setup(dest: Name, temp: nat -> Name, bytes: nat -> seq<byte>)

  datatype Outcome = Success | Mismatch | Failure

  datatype Pc =
    | Idle
    | Writing(file: nat)                              // owns the temporary file, content partial
    | Linking(file: nat)                              // content complete and closed
    | Losing(file: nat)                               // link reported an existing destination
    | Comparing(file: nat, other: nat, got: seq<byte>) // reading the destination
    | Cleaning(file: nat, outcome: Outcome)           // about to remove the temporary file
    | Ended(outcome: Outcome)
    | Dead

  /** Directory entries name files by number, so a hard link is a second name for one file. */
  datatype State = State(names: map<Name, nat>, files: map<nat, seq<byte>>, pcs: map<nat, Pc>)

  function PcOf(s: State, w: nat): Pc {
    if w in s.pcs then s.pcs[w] else Idle
  }

  predicate Owns(pc: Pc) {
    pc.Writing? || pc.Linking? || pc.Losing? || pc.Comparing? || pc.Cleaning?
  }

  datatype Step =
    | Open(w: nat, file: nat) | OpenFails(w: nat)
    | Write(w: nat, upTo: nat) | Close(w: nat)
    | Link(w: nat) | OpenDestination(w: nat) | ReadSome(w: nat, upTo: nat) | Compare(w: nat)
    | Fail(w: nat) | Remove(w: nat) | RemoveFails(w: nat) | Die(w: nat)

  function WithPc(s: State, w: nat, pc: Pc): State {
    s.(pcs := s.pcs[w := pc])
  }

  ghost predicate Next(setup: Setup, s: State, s': State, step: Step) {
    var pc := PcOf(s, step.w);
    var temp := setup.temp(step.w);
    match step
    case Open(w, file) => // exclusive creation
      pc.Idle? && temp !in s.names && file !in s.files
      && s' == State(s.names[temp := file], s.files[file := []], s.pcs[w := Writing(file)])
    case OpenFails(w) => pc.Idle? && s' == WithPc(s, w, Ended(Failure))
    case Write(w, upTo) =>
      pc.Writing? && pc.file in s.files && |s.files[pc.file]| <= upTo <= |setup.bytes(w)|
      && s' == s.(files := s.files[pc.file := setup.bytes(w)[..upTo]])
    case Close(w) =>
      pc.Writing? && pc.file in s.files && |s.files[pc.file]| == |setup.bytes(w)|
          && s' == WithPc(s, w, Linking(pc.file))
    case Link(w) =>
      pc.Linking? && temp in s.names
      && if setup.dest in s.names then s' == WithPc(s, w, Losing(pc.file))
         else s' == State(s.names[setup.dest := s.names[temp]], s.files, s.pcs[w := Cleaning(pc.file, Success)])
    case OpenDestination(w) =>
      pc.Losing? && setup.dest in s.names && s' == WithPc(s, w, Comparing(pc.file, s.names[setup.dest], []))
    case ReadSome(w, upTo) =>
      pc.Comparing? && pc.other in s.files && |pc.got| <= upTo <= |s.files[pc.other]|
      && s' == WithPc(s, w, pc.(got := pc.got + s.files[pc.other][|pc.got|..upTo]))
    case Compare(w) =>
      pc.Comparing? && pc.other in s.files && |pc.got| == |s.files[pc.other]|
      && s' == WithPc(s, w, Cleaning(pc.file, if pc.got == setup.bytes(w) then Success else Mismatch))
    case Fail(w) => // any other error of a call made while the temporary file is owned
      (pc.Writing? || pc.Linking? || pc.Losing? || pc.Comparing?) && s' == WithPc(s, w, Cleaning(pc.file, Failure))
    case Remove(w) =>
      pc.Cleaning? && s' == State(s.names - {temp}, s.files, s.pcs[w := Ended(pc.outcome)])
    case RemoveFails(w) => // the error replaces the outcome
      pc.Cleaning? && s' == WithPc(s, w, Ended(Failure))
    case Die(w) => s' == WithPc(s, w, Dead)
  }

  ghost predicate ValidSetup(setup: Setup) {
    forall w :: setup.temp(w) != setup.dest
  }

  /** Nothing started; the destination may already exist from an earlier process. */
  ghost predicate Init(s: State) {
    s.pcs == map[] && forall n :: n in s.names ==> s.names[n] in s.files
  }

  ghost predicate IsBehavior(setup: Setup, states: seq<State>, steps: seq<Step>) {
    && |states| == |steps| + 1 && Init(states[0])
    && forall i :: 0 <= i < |steps| ==> Next(setup, states[i], states[i + 1], steps[i])
  }

  // ---------------------------------------------------------------- the invariant

  predicate Exists(setup: Setup, s: State) { setup.dest in s.names && s.names[setup.dest] in s.files }

  function Content(setup: Setup, s: State): seq<byte>
    requires Exists(setup, s)
  {
    s.files[s.names[setup.dest]]
  }

  /** An owner's temporary name still leads to its file, which holds what the writer has written. */
  ghost predicate OwnerOk(setup: Setup, s: State, w: nat) {
    var pc := PcOf(s, w);
    Owns(pc) ==>
      && setup.temp(w) in s.names && s.names[setup.temp(w)] == pc.file && pc.file in s.files
      && s.files[pc.file] <= setup.bytes(w)
      && (pc.Linking? || pc.Losing? || pc.Comparing? ==> s.files[pc.file] == setup.bytes(w))
      && (pc.Writing? ==> setup.dest in s.names ==> s.names[setup.dest] != pc.file)
  }

  /** What a writer knows about the destination. */
  ghost predicate KnowledgeOk(setup: Setup, s: State, w: nat) {
    match PcOf(s, w)
    case Losing(_) => Exists(setup, s)
    case Comparing(_, other, got) => Exists(setup, s) && other == s.names[setup.dest] && got <= Content(setup, s)
    case Cleaning(_, outcome) => OutcomeOk(setup, s, w, outcome)
    case Ended(outcome) => OutcomeOk(setup, s, w, outcome)
    case _ => true
  }

  ghost predicate OutcomeOk(setup: Setup, s: State, w: nat, outcome: Outcome) {
    && (outcome == Success ==> Exists(setup, s) && Content(setup, s) == setup.bytes(w))
    && (outcome == Mismatch ==> Exists(setup, s) && Content(setup, s) != setup.bytes(w))
  }

  ghost predicate Inv(setup: Setup, s: State) {
    && (forall n :: n in s.names ==> s.names[n] in s.files)
    && (forall w :: OwnerOk(setup, s, w))
    && (forall w :: KnowledgeOk(setup, s, w))
    && (forall v, w :: v != w && Owns(PcOf(s, v)) && Owns(PcOf(s, w)) ==> PcOf(s, v).file != PcOf(s, w).file)
  }

  /** Once there, the destination keeps its name, its file and its bytes. */
  ghost predicate Preserved(setup: Setup, s: State, s': State) {
    Exists(setup, s) ==>
        Exists(setup, s') && s'.names[setup.dest] == s.names[setup.dest] && Content(setup, s') == Content(setup, s)
  }

  lemma StepPreserves(setup: Setup, s: State, s': State, step: Step)
    requires ValidSetup(setup) && Inv(setup, s) && Next(setup, s, s', step)
    ensures Preserved(setup, s, s')
  {
    assert OwnerOk(setup, s, step.w);
  }

  lemma StepKeepsNames(setup: Setup, s: State, s': State, step: Step)
    requires ValidSetup(setup) && Inv(setup, s) && Next(setup, s, s', step)
    ensures forall n :: n in s'.names ==> s'.names[n] in s'.files
  {
    assert OwnerOk(setup, s, step.w);
  }

  lemma StepKeepsKnowledge(setup: Setup, s: State, s': State, step: Step, w: nat)
    requires ValidSetup(setup) && Inv(setup, s) && Next(setup, s, s', step)
    ensures KnowledgeOk(setup, s', w)
  {
    StepPreserves(setup, s, s', step);
    assert OwnerOk(setup, s, step.w) && KnowledgeOk(setup, s, step.w) && KnowledgeOk(setup, s, w);
    if w != step.w { assert PcOf(s', w) == PcOf(s, w); }
  }

  lemma StepKeepsSeparation(setup: Setup, s: State, s': State, step: Step, v: nat, w: nat)
    requires Inv(setup, s) && Next(setup, s, s', step)
    requires v != w && Owns(PcOf(s', v)) && Owns(PcOf(s', w))
    ensures PcOf(s', v).file != PcOf(s', w).file
  {
    hide OwnerOk, KnowledgeOk, Owns;
    if v == step.w { ActorIsSeparate(setup, s, s', step, w); }
    else if w == step.w { ActorIsSeparate(setup, s, s', step, v); }
    else { OthersKeepPc(setup, s, s', step, v); OthersKeepPc(setup, s, s', step, w); }
  }

  lemma OthersKeepPc(setup: Setup, s: State, s': State, step: Step, w: nat)
    requires Next(setup, s, s', step) && w != step.w
    ensures PcOf(s', w) == PcOf(s, w)
  {
  }

  lemma ActorIsSeparate(setup: Setup, s: State, s': State, step: Step, w: nat)
    requires Inv(setup, s) && Next(setup, s, s', step) && w != step.w
    requires Owns(PcOf(s', step.w)) && Owns(PcOf(s', w))
    ensures PcOf(s', step.w).file != PcOf(s', w).file
  {
    OthersKeepPc(setup, s, s', step, w);
    assert OwnerOk(setup, s, w);
    hide KnowledgeOk;
  }

  lemma StepKeepsOwner(setup: Setup, s: State, s': State, step: Step, w: nat)
    requires ValidSetup(setup) && Inv(setup, s) && Next(setup, s, s', step)
    ensures OwnerOk(setup, s', w)
  {
    hide KnowledgeOk;
    if w == step.w { ActorStaysOwner(setup, s, s', step); } else { OthersStayOwners(setup, s, s', step, w); }
  }

  lemma ActorStaysOwner(setup: Setup, s: State, s': State, step: Step)
    requires ValidSetup(setup) && Inv(setup, s) && Next(setup, s, s', step)
    ensures OwnerOk(setup, s', step.w)
  {
    assert OwnerOk(setup, s, step.w);
    hide KnowledgeOk;
  }

  lemma OthersStayOwners(setup: Setup, s: State, s': State, step: Step, w: nat)
    requires ValidSetup(setup) && Inv(setup, s) && Next(setup, s, s', step) && w != step.w
    ensures OwnerOk(setup, s', w)
  {
    assert OwnerOk(setup, s, w) && OwnerOk(setup, s, step.w) && PcOf(s', w) == PcOf(s, w);
    if Owns(PcOf(s, w)) && Owns(PcOf(s, step.w)) {
      assert PcOf(s, w).file != PcOf(s, step.w).file;
      assert setup.temp(w) != setup.temp(step.w);
    }
    hide KnowledgeOk, Inv;
  }

  lemma InvStep(setup: Setup, s: State, s': State, step: Step)
    requires ValidSetup(setup) && Inv(setup, s) && Next(setup, s, s', step)
    ensures Inv(setup, s')
  {
    hide Next, OwnerOk, KnowledgeOk, Owns;
    StepKeepsNames(setup, s, s', step);
    forall w ensures OwnerOk(setup, s', w) { StepKeepsOwner(setup, s, s', step, w); }
    forall w ensures KnowledgeOk(setup, s', w) { StepKeepsKnowledge(setup, s, s', step, w); }
    SeparationAfter(setup, s, s', step);
  }

  lemma SeparationAfter(setup: Setup, s: State, s': State, step: Step)
    requires Inv(setup, s) && Next(setup, s, s', step)
    ensures forall v, w :: v != w && Owns(PcOf(s', v)) && Owns(PcOf(s', w)) ==> PcOf(s', v).file != PcOf(s', w).file
  {
    forall v, w | v != w && Owns(PcOf(s', v)) && Owns(PcOf(s', w)) ensures PcOf(s', v).file != PcOf(s', w).file {
      StepKeepsSeparation(setup, s, s', step, v, w);
    }
  }

  lemma {:induction false} InvAlways(setup: Setup, states: seq<State>, steps: seq<Step>, k: nat)
    requires ValidSetup(setup) && IsBehavior(setup, states, steps) && k < |states|
    ensures Inv(setup, states[k])
  {
    if k == 0 {
      assert forall w :: PcOf(states[0], w) == Idle;
    } else {
      hide Next, Inv;
      InvAlways(setup, states, steps, k - 1);
      assert Next(setup, states[k - 1], states[k - 1 + 1], steps[k - 1]);
      InvStep(setup, states[k - 1], states[k], steps[k - 1]);
    }
  }

  // ---------------------------------------------------------------- the theorems

  /** The destination never disappears and never changes once it exists. */
  lemma {:induction false} DestinationIsImmutable(setup: Setup, states: seq<State>, steps: seq<Step>, j: nat, k: nat)
    requires ValidSetup(setup) && IsBehavior(setup, states, steps) && j <= k < |states|
    ensures Preserved(setup, states[j], states[k])
    decreases k
  {
    hide Next, Inv;
    if j < k {
      DestinationIsImmutable(setup, states, steps, j, k - 1);
      InvAlways(setup, states, steps, k - 1);
      assert Next(setup, states[k - 1], states[k - 1 + 1], steps[k - 1]);
      StepPreserves(setup, states[k - 1], states[k], steps[k - 1]);
    }
  }

  ghost predicate SomeonesBytes(setup: Setup, b: seq<byte>) {
    exists w :: setup.bytes(w) == b
  }

  lemma CreationIsComplete(setup: Setup, s: State, s': State, step: Step)
    requires ValidSetup(setup) && Inv(setup, s) && Next(setup, s, s', step)
    requires setup.dest !in s.names && setup.dest in s'.names
    ensures Exists(setup, s') && SomeonesBytes(setup, Content(setup, s'))
  {
    assert OwnerOk(setup, s, step.w);
    assert Content(setup, s') == setup.bytes(step.w);
  }

  /** If the destination was absent at the start, it is absent or holds the complete bytes of one writer. */
  lemma {:induction false} AbsentOrComplete(setup: Setup, states: seq<State>, steps: seq<Step>, k: nat)
    requires ValidSetup(setup) && IsBehavior(setup, states, steps) && k < |states| && setup.dest !in states[0].names
    ensures setup.dest in states[k].names ==>
              Exists(setup, states[k]) && SomeonesBytes(setup, Content(setup, states[k]))
  {
    hide Next, Inv, SomeonesBytes;
    if k > 0 {
      AbsentOrComplete(setup, states, steps, k - 1);
      InvAlways(setup, states, steps, k - 1);
      assert Next(setup, states[k - 1], states[k - 1 + 1], steps[k - 1]);
      if setup.dest in states[k - 1].names {
        StepPreserves(setup, states[k - 1], states[k], steps[k - 1]);
      } else if setup.dest in states[k].names {
        CreationIsComplete(setup, states[k - 1], states[k], steps[k - 1]);
      }
    }
  }

  /** A writer that returned wrote, or agreed with, exactly what the destination holds from then on; one
      that reported a conflict had different bytes, and no writer with different bytes ever returns. */
  lemma WinnersAgree(setup: Setup, states: seq<State>, steps: seq<Step>, j: nat, k: nat, w: nat)
    requires ValidSetup(setup) && IsBehavior(setup, states, steps) && j <= k < |states|
    ensures PcOf(states[j], w) == Ended(Success) ==>
              Exists(setup, states[k]) && Content(setup, states[k]) == setup.bytes(w)
    ensures PcOf(states[j], w) == Ended(Mismatch) ==>
              Exists(setup, states[k]) && Content(setup, states[k]) != setup.bytes(w)
  {
    InvAlways(setup, states, steps, j);
    assert KnowledgeOk(setup, states[j], w);
    hide IsBehavior, OwnerOk;
    DestinationIsImmutable(setup, states, steps, j, k);
  }

  /** Two writers that both returned had the same bytes. */
  lemma ReturnedWritersHadEqualBytes(setup: Setup, states: seq<State>, steps: seq<Step>, i: nat, j: nat, v: nat, w: nat)
    requires ValidSetup(setup) && IsBehavior(setup, states, steps) && i < |states| && j < |states|
    requires PcOf(states[i], v) == Ended(Success) && PcOf(states[j], w) == Ended(Success)
    ensures setup.bytes(v) == setup.bytes(w)
  {
    var k := if i < j then j else i;
    hide IsBehavior;
    WinnersAgree(setup, states, steps, i, k, v);
    WinnersAgree(setup, states, steps, j, k, w);
  }

  // ---------------------------------------------------------------- what an ended writer was told

  /** A system call of writer w failed, other than the link that finds the destination taken. */
  predicate Troubled(step: Step, w: nat) {
    step == OpenFails(w) || step == Fail(w) || step == RemoveFails(w)
  }

  ghost predicate Untroubled(steps: seq<Step>, k: nat, w: nat)
    requires k <= |steps|
  {
    forall j :: 0 <= j < k ==> !Troubled(steps[j], w)
  }

  predicate Failing(pc: Pc) {
    pc == Ended(Failure) || (pc.Cleaning? && pc.outcome == Failure)
  }

  /** A writer fails only after one of its own calls failed. */
  lemma {:induction false} FailureHasCause(setup: Setup, states: seq<State>, steps: seq<Step>, k: nat, w: nat)
    requires IsBehavior(setup, states, steps) && k < |states| && Failing(PcOf(states[k], w))
    ensures !Untroubled(steps, k, w)
  {
    if k > 0 {
      assert Next(setup, states[k - 1], states[k - 1 + 1], steps[k - 1]);
      if !Troubled(steps[k - 1], w) {
        assert Failing(PcOf(states[k - 1], w));
        FailureHasCause(setup, states, steps, k - 1, w);
      }
    }
  }

  /** A writer that ended without a failed call was told the truth: success exactly when the destination
      holds its bytes, whether it created the file or found it there, and otherwise a conflict. */
  lemma EndedWriterIsToldTheTruth(setup: Setup, states: seq<State>, steps: seq<Step>, k: nat, w: nat)
    requires ValidSetup(setup) && IsBehavior(setup, states, steps) && k < |states|
    requires PcOf(states[k], w).Ended? && Untroubled(steps, k, w)
    ensures Exists(setup, states[k])
    ensures PcOf(states[k], w).outcome == if Content(setup, states[k]) == setup.bytes(w) then Success else Mismatch
  {
    InvAlways(setup, states, steps, k);
    assert KnowledgeOk(setup, states[k], w);
    if PcOf(states[k], w).outcome == Failure { FailureHasCause(setup, states, steps, k, w); }
  }

  /** How far writer w is from its end. */
  function Rank(setup: Setup, s: State, w: nat): nat {
    match PcOf(s, w)
    case Writing(file) => if file in s.files && |s.files[file]| == |setup.bytes(w)| then 6 else 7
    case Linking(_) => 5
    case Losing(_) => 4
    case Comparing(_, other, got) => if other in s.files && |got| == |s.files[other]| then 2 else 3
    case Cleaning(_, _) => 1
    case _ => 0
  }

  /** A writer with a temporary file always has a next call that need not fail and brings it closer to its end. */
  lemma StepAlone(setup: Setup, s: State, w: nat) returns (step: Step, s': State)
    requires ValidSetup(setup) && Inv(setup, s) && Owns(PcOf(s, w))
    ensures Next(setup, s, s', step) && step.w == w && !Troubled(step, w) && PcOf(s', w) != Dead
    ensures Rank(setup, s', w) < Rank(setup, s, w) && (Owns(PcOf(s', w)) || PcOf(s', w).Ended?)
  {
    assert OwnerOk(setup, s, w) && KnowledgeOk(setup, s, w);
    var pc, temp := PcOf(s, w), setup.temp(w);
    match pc
    case Writing(file) =>
      if |s.files[file]| == |setup.bytes(w)| {
        step, s' := Close(w), WithPc(s, w, Linking(file));
      } else {
        var all := |setup.bytes(w)|;
        assert setup.bytes(w)[..all] == setup.bytes(w);
        step, s' := Write(w, all), s.(files := s.files[file := setup.bytes(w)[..all]]);
      }
    case Linking(file) =>
      step := Link(w);
      s' := if setup.dest in s.names then WithPc(s, w, Losing(file))
            else State(s.names[setup.dest := s.names[temp]], s.files, s.pcs[w := Cleaning(file, Success)]);
    case Losing(file) =>
      step, s' := OpenDestination(w), WithPc(s, w, Comparing(file, s.names[setup.dest], []));
    case Comparing(file, other, got) =>
      if |got| == |s.files[other]| {
        step := Compare(w);
        s' := WithPc(s, w, Cleaning(file, if got == setup.bytes(w) then Success else Mismatch));
      } else {
        var all := |s.files[other]|;
        step, s' := ReadSome(w, all), WithPc(s, w, pc.(got := got + s.files[other][|got|..all]));
      }
    case Cleaning(file, outcome) =>
      step, s' := Remove(w), State(s.names - {temp}, s.files, s.pcs[w := Ended(outcome)]);
  }

  lemma {:induction false} Fresh(used: set<nat>) returns (n: nat)
    ensures forall m :: m in used ==> m < n
  {
    n := 0;
    if used != {} {
      var x :| x in used;
      var k := Fresh(used - {x});
      assert forall m :: m in used ==> m == x || m in used - {x};
      n := if k > x then k else x + 1;
    }
  }

  /** A writer whose temporary path is free can open it. */
  lemma OpenAlone(setup: Setup, s: State, w: nat) returns (step: Step, s': State)
    requires PcOf(s, w) == Idle && setup.temp(w) !in s.names
    ensures Next(setup, s, s', step) && step.w == w && !Troubled(step, w) && Owns(PcOf(s', w))
  {
    var file := Fresh(s.files.Keys);
    step := Open(w, file);
    s' := State(s.names[setup.temp(w) := file], s.files[file := []], s.pcs[w := Writing(file)]);
  }

  ghost predicate RunsAlone(setup: Setup, states: seq<State>, steps: seq<Step>, w: nat) {
    && |states| == |steps| + 1
    && forall i :: 0 <= i < |steps| ==>
         Next(setup, states[i], states[i + 1], steps[i]) && steps[i].w == w && !Troubled(steps[i], w)
  }

  /** No other writer can stop it: from every reachable state a writer with a temporary file ends within
      seven calls of its own when none of them fails. */
  lemma {:induction false} FinishAlone(setup: Setup, s: State, w: nat) returns (states: seq<State>, steps: seq<Step>)
    requires ValidSetup(setup) && Inv(setup, s) && (Owns(PcOf(s, w)) || PcOf(s, w).Ended?)
    ensures RunsAlone(setup, states, steps, w) && states[0] == s && PcOf(states[|steps|], w).Ended?
    ensures |steps| <= Rank(setup, s, w) <= 7
    decreases Rank(setup, s, w)
  {
    hide Inv, Next;
    states, steps := [s], [];
    if Owns(PcOf(s, w)) {
      var step, s' := StepAlone(setup, s, w);
      InvStep(setup, s, s', step);
      var later, rest := FinishAlone(setup, s', w);
      states, steps := [s] + later, [step] + rest;
      forall i | 0 <= i < |steps|
        ensures Next(setup, states[i], states[i + 1], steps[i]) && steps[i].w == w && !Troubled(steps[i], w)
      {
        if i > 0 { assert states[i] == later[i - 1] && states[i + 1] == later[i] && steps[i] == rest[i - 1]; }
      }
    }
  }
}

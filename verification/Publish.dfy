/** Publishing one retained package against an arbitrary registry. */
module Publish {
  import opened Common
  import opened Evidence
  import Versions

  datatype ObserveAnswer = Absent | Seen(observation: Observation) | TransientFailure | FatalFailure
  datatype PublishAnswer = Accepted | Rejected | PublishThrew

  datatype PublishError =
    | BadTarball | ObservationFailed | PublishFailed | NeverVisible
    | LatestMissing | LatestRegressed | ConflictingEvidence

  /** One call to the outside world together with its answer. */
  datatype Event = Read(ok: bool) | Observe(answer: ObserveAnswer) | Attempt(result: PublishAnswer) | Sleep

  /** An observation that proves the release: the exact evidence, tagged as latest. */
  predicate Exact(record: PackageRecord, o: Observation) {
    Versions.Stable(record.version) && o.latestVersion == Some(record.version) && o.registry == RegistryOf(record)
  }

  /** Why an observation does not prove the release: no latest tag, a tag that is not a stable version at
      least the release's, or anything else that differs. */
  predicate Faults(record: PackageRecord, o: Observation, error: PublishError) {
    match o.latestVersion
    case None => error == LatestMissing
    case Some(latest) =>
      if Versions.Stable(record.version) && Versions.Stable(latest)
         && Versions.Order(Versions.VersionOf(latest), Versions.VersionOf(record.version)) >= 0
      then error == ConflictingEvidence && (latest != record.version || o.registry != RegistryOf(record))
      else error == LatestRegressed
  }

  /** assertExactRegistryObservation: None when the observation is accepted. */
  method CheckExact(record: PackageRecord, o: Observation) returns (e: Option<PublishError>)
    ensures e == ExactError(record, o)
  {
    if o.latestVersion == None { return Some(LatestMissing); }
    var monotonic := Versions.LatestIsMonotonic(record.version, o.latestVersion.value);
    if !monotonic { return Some(LatestRegressed); }
    if o.latestVersion.value != record.version || Classify(record, Some(o)) != Skip {
      return Some(ConflictingEvidence);
    }
    e := None;
  }

  function ExactError(record: PackageRecord, o: Observation): (e: Option<PublishError>)
    ensures e == None <==> Exact(record, o)
    ensures e.Some? ==> Faults(record, o, e.value)
  {
    if o.latestVersion == None then Some(LatestMissing)
    else if !Versions.Stable(record.version) || !Versions.Stable(o.latestVersion.value)
            || Versions.Order(Versions.VersionOf(o.latestVersion.value),
                              Versions.VersionOf(record.version)) < 0 then Some(LatestRegressed)
    else if o.latestVersion.value != record.version || Classify(record, Some(o)) != Skip then Some(ConflictingEvidence)
    else None
  }

  // ---------------------------------------------------------------- the control states

  /** Where the operation stands; every state but the last two awaits one answer. */
  datatype Pc = Reading | Observing | Publishing | Racing | Retrying(attempt: nat)
              | Returned(observation: Observation) | Threw(error: PublishError)

  function Conclude(record: PackageRecord, o: Observation): Pc {
    match ExactError(record, o)
    case None => Returned(o)
    case Some(e) => Threw(e)
  }

  /** The state after an event; an event that the state does not await changes nothing. */
  function Advance(record: PackageRecord, retries: int, pc: Pc, event: Event): Pc {
    match (pc, event)
    case (Reading, Read(ok)) => if ok then Observing else Threw(BadTarball)
    case (Observing, Observe(Absent)) => Publishing
    case (Observing, Observe(Seen(o))) => Conclude(record, o)
    case (Observing, Observe(_)) => Threw(ObservationFailed)
    case (Publishing, Attempt(Accepted)) => Retrying(0)
    case (Publishing, Attempt(Rejected)) => Racing
    case (Publishing, Attempt(PublishThrew)) => Threw(PublishFailed)
    case (Racing, Observe(Absent)) => Threw(PublishFailed)
    case (Racing, Observe(Seen(o))) => Conclude(record, o)
    case (Racing, Observe(_)) => Threw(ObservationFailed)
    case (Retrying(attempt), Observe(Seen(o))) => Conclude(record, o)
    case (Retrying(attempt), Observe(FatalFailure)) => Threw(ObservationFailed)
    case (Retrying(attempt), Observe(TransientFailure)) =>
      if attempt < retries then Retrying(attempt + 1) else Threw(ObservationFailed)
    case (Retrying(attempt), Observe(Absent)) =>
      if attempt < retries then Retrying(attempt + 1) else Threw(NeverVisible)
    case _ => pc
  }

  function Run(record: PackageRecord, retries: int, pc: Pc, log: seq<Event>): Pc {
    if log == [] then pc else Advance(record, retries, Run(record, retries, pc, log[..|log| - 1]), log[|log| - 1])
  }

  lemma RunExtend(record: PackageRecord, retries: int, pc: Pc, log: seq<Event>, event: Event)
    ensures Run(record, retries, pc, log + [event]) == Advance(record, retries, Run(record, retries, pc, log), event)
  {
    assert (log + [event])[..|log|] == log;
  }

  // ---------------------------------------------------------------- the operation

  /** An arbitrary environment: the answer to every call, by its position among calls of its kind. */
  datatype World = World(tarballOk: bool, observe: nat -> ObserveAnswer, publish: PublishAnswer)

  /** A retry observation that ends the visibility loop whatever the budget. */
  predicate Final(a: ObserveAnswer) { a.Seen? || a.FatalFailure? }

  /** The number of retries the visibility loop spends. */
  function RetriesUsed(w: World, attempt: nat, retries: int): (k: nat)
    ensures k >= attempt && (k == attempt || k <= retries)
    ensures Final(w.observe(1 + k)) || k >= retries
    ensures forall j: nat :: attempt < j <= k ==> !Final(w.observe(j))
    decreases if attempt < retries then retries - attempt else 0
  {
    if Final(w.observe(1 + attempt)) || attempt >= retries then attempt else RetriesUsed(w, attempt + 1, retries)
  }

  function RetryLog(w: World, n: nat): (log: seq<Event>)
    ensures |log| == 2 * n
  {
    if n == 0 then [] else RetryLog(w, n - 1) + [Observe(w.observe(n)), Sleep]
  }

  /** The complete list of calls the operation makes. */
  function Calls(w: World, retries: int): seq<Event> {
    if !w.tarballOk then [Read(false)]
    else if w.observe(0) != Absent then [Read(true), Observe(w.observe(0))]
    else if w.publish == PublishThrew then [Read(true), Observe(Absent), Attempt(PublishThrew)]
    else if w.publish == Rejected then [Read(true), Observe(Absent), Attempt(Rejected), Observe(w.observe(1))]
    else
      var k := RetriesUsed(w, 0, retries);
      [Read(true), Observe(Absent), Attempt(Accepted)] + RetryLog(w, k) + [Observe(w.observe(1 + k))]
  }

  /** Which error a list of calls ends in, by its last call and its publish attempt. */
  predicate Blames(record: PackageRecord, log: seq<Event>, error: PublishError) {
    log != [] &&
    match log[|log| - 1]
    case Read(ok) => !ok && error == BadTarball
    case Observe(Seen(o)) => Faults(record, o, error)
    case Observe(Absent) => |log| > 3 && error == if log[2] == Attempt(Accepted) then NeverVisible else PublishFailed
    case Observe(_) => error == ObservationFailed
    case Attempt(result) => result == PublishThrew && error == PublishFailed
    case Sleep => false
  }

  /** The observation that a list of calls ends in and that proves the release. */
  predicate Proves(record: PackageRecord, log: seq<Event>, o: Observation) {
    log != [] && log[|log| - 1] == Observe(Seen(o)) && Exact(record, o)
  }

  /** The operation makes exactly these calls, in this order, and its outcome is the state they lead to. */
  method PublishRetainedPackage(record: PackageRecord, w: World, retries: int)
    returns (r: Result<Observation, PublishError>, log: seq<Event>)
    ensures log == Calls(w, retries)
    ensures forall o :: r == Ok(o) <==> Proves(record, log, o)
    ensures r.Err? ==> Blames(record, log, r.error)
    ensures Run(record, retries, Reading, log) == if r.Ok? then Returned(r.value) else Threw(r.error)
  {
    hide ExactError, Exact, Faults, RetryLog, RetriesUsed;
    RunExtend(record, retries, Reading, [], Read(w.tarballOk));
    log := [Read(w.tarballOk)];
    assert [] + log == log;
    if !w.tarballOk { return Err(BadTarball), log; }
    var existing := w.observe(0);
    RunExtend(record, retries, Reading, log, Observe(existing));
    log := log + [Observe(existing)];
    if existing.TransientFailure? || existing.FatalFailure? { return Err(ObservationFailed), log; }
    if existing.Seen? {
      var error := CheckExact(record, existing.observation);
      r := if error == None then Ok(existing.observation) else Err(error.value);
      return;
    }
    RunExtend(record, retries, Reading, log, Attempt(w.publish));
    log := log + [Attempt(w.publish)];
    if w.publish == PublishThrew { return Err(PublishFailed), log; }
    if w.publish == Rejected {
      var raced := w.observe(1);
      RunExtend(record, retries, Reading, log, Observe(raced));
      log := log + [Observe(raced)];
      if raced.TransientFailure? || raced.FatalFailure? { return Err(ObservationFailed), log; }
      if raced.Absent? { return Err(PublishFailed), log; }
      var error := CheckExact(record, raced.observation);
      r := if error == None then Ok(raced.observation) else Err(error.value);
      return;
    }
    r, log := AwaitVisibility(record, w, retries, log);
  }

  method AwaitVisibility(record: PackageRecord, w: World, retries: int, start: seq<Event>)
    returns (r: Result<Observation, PublishError>, log: seq<Event>)
    requires Run(record, retries, Reading, start) == Retrying(0) && |start| == 3 && start[2] == Attempt(Accepted)
    ensures var k := RetriesUsed(w, 0, retries); log == start + RetryLog(w, k) + [Observe(w.observe(1 + k))]
    ensures forall o :: r == Ok(o) <==> Proves(record, log, o)
    ensures r.Err? ==> Blames(record, log, r.error)
    ensures Run(record, retries, Reading, log) == if r.Ok? then Returned(r.value) else Threw(r.error)
  {
    hide ExactError, Run, Exact, Faults;
    log := start;
    var attempt := 0;
    assert start + RetryLog(w, 0) == start;
    while true
      invariant Run(record, retries, Reading, log) == Retrying(attempt)
      invariant log == start + RetryLog(w, attempt)
      invariant RetriesUsed(w, 0, retries) == RetriesUsed(w, attempt, retries)
      invariant attempt == 0 || attempt <= retries
      decreases retries - attempt
    {
      var observed := w.observe(1 + attempt);
      RunExtend(record, retries, Reading, log, Observe(observed));
      if observed.Seen? {
        var error := CheckExact(record, observed.observation);
        return (if error == None then Ok(observed.observation) else Err(error.value)), log + [Observe(observed)];
      }
      if observed.FatalFailure? || attempt >= retries {
        return Err(if observed.Absent? then NeverVisible else ObservationFailed), log + [Observe(observed)];
      }
      RunExtend(record, retries, Reading, log + [Observe(observed)], Sleep);
      RetryStep(w, start, log, attempt);
      log := log + [Observe(observed)] + [Sleep];
      attempt := attempt + 1;
    }
  }

  lemma RetryStep(w: World, start: seq<Event>, log: seq<Event>, attempt: nat)
    requires log == start + RetryLog(w, attempt)
    ensures log + [Observe(w.observe(1 + attempt))] + [Sleep] == start + RetryLog(w, attempt + 1)
  {
    assert RetryLog(w, attempt + 1) == RetryLog(w, attempt) + [Observe(w.observe(1 + attempt)), Sleep];
  }

  // ---------------------------------------------------------------- what the calls amount to

  function Count(log: seq<Event>, p: Event -> bool): nat {
    if log == [] then 0 else Count(log[..|log| - 1], p) + (if p(log[|log| - 1]) then 1 else 0)
  }

  lemma {:induction false} CountConcat(a: seq<Event>, b: seq<Event>, p: Event -> bool)
    ensures Count(a + b, p) == Count(a, p) + Count(b, p)
    decreases |b|
  {
    if b == [] {
      assert a + b == a;
    } else {
      CountConcat(a, b[..|b| - 1], p);
      assert (a + b)[..|a + b| - 1] == a + b[..|b| - 1];
    }
  }

  predicate IsAttempt(e: Event) { e.Attempt? }
  predicate IsObserve(e: Event) { e.Observe? }
  predicate IsSleep(e: Event) { e.Sleep? }

  lemma {:induction false} RetryCounts(w: World, n: nat)
    ensures Count(RetryLog(w, n), IsAttempt) == 0
    ensures Count(RetryLog(w, n), IsObserve) == n && Count(RetryLog(w, n), IsSleep) == n
    ensures forall i :: 0 <= i < 2 * n ==> !RetryLog(w, n)[i].Attempt?
  {
    if n > 0 {
      RetryCounts(w, n - 1);
      var rest, one, two := RetryLog(w, n - 1), Observe(w.observe(n)), Sleep;
      assert RetryLog(w, n)[..2 * n - 1] == rest + [one];
      assert (rest + [one])[..2 * n - 2] == rest;
    }
  }

  /** For every environment: publish is called at most once, and only as the third call, right after the
      first observation reported absence. */
  lemma PublishAtMostOnce(w: World, retries: int)
    ensures Count(Calls(w, retries), IsAttempt) <= 1
    ensures forall i :: 0 <= i < |Calls(w, retries)| && Calls(w, retries)[i].Attempt? ==>
              i == 2 && Calls(w, retries)[1] == Observe(Absent)
  {
    var log := Calls(w, retries);
    if w.tarballOk && w.observe(0) == Absent && w.publish == Accepted {
      var k := RetriesUsed(w, 0, retries);
      var head, middle, last := [Read(true), Observe(Absent), Attempt(Accepted)], RetryLog(w, k),
        [Observe(w.observe(1 + k))];
      assert log == head + middle + last;
      hide Count, RetryLog, Calls, RetriesUsed;
      RetryCounts(w, k);
      CountThree(log, head, middle, last, IsAttempt);
      SmallCounts(head, last);
      assert forall i :: 3 <= i < 3 + |middle| ==> log[i] == middle[i - 3];
    } else {
      ShortCounts(log);
    }
  }

  /** For every environment: an accepted publish is followed by at most retries + 1 observations and at
      most retries sleeps, with one sleep between two observations. */
  lemma BoundedWaiting(w: World, retries: int)
    ensures Count(Calls(w, retries), IsSleep) <= (if retries > 0 then retries else 0)
    ensures Attempt(Accepted) in Calls(w, retries) ==>
              Count(Calls(w, retries), IsObserve) == 2 + Count(Calls(w, retries), IsSleep)
    ensures Count(Calls(w, retries), IsObserve) <= 2 + (if retries > 0 then retries else 0)
  {
    var log := Calls(w, retries);
    if w.tarballOk && w.observe(0) == Absent && w.publish == Accepted {
      var k := RetriesUsed(w, 0, retries);
      var head, middle, last := [Read(true), Observe(Absent), Attempt(Accepted)], RetryLog(w, k),
        [Observe(w.observe(1 + k))];
      assert log == head + middle + last;
      hide Count, RetryLog, Calls, RetriesUsed;
      RetryCounts(w, k);
      CountThree(log, head, middle, last, IsSleep);
      CountThree(log, head, middle, last, IsObserve);
      SmallCounts(head, last);
    } else {
      ShortCounts(log);
    }
  }

  /** For every environment: publish is attempted exactly when the tarball is readable and the first
      observation reports absence, with the environment's answer. */
  lemma AttemptsExactlyOnAbsence(w: World, retries: int)
    ensures (exists i :: 0 <= i < |Calls(w, retries)| && Calls(w, retries)[i].Attempt?) <==>
              w.tarballOk && w.observe(0) == Absent
    ensures w.tarballOk && w.observe(0) == Absent ==>
              |Calls(w, retries)| > 2 && Calls(w, retries)[2] == Attempt(w.publish)
  {
    var log := Calls(w, retries);
    if w.tarballOk && w.observe(0) == Absent { assert log[2].Attempt?; }
  }

  lemma {:induction false} RetryEvents(w: World, n: nat, j: nat)
    requires j < n
    ensures RetryLog(w, n)[2 * j] == Observe(w.observe(1 + j)) && RetryLog(w, n)[2 * j + 1] == Sleep
  {
    if j < n - 1 { RetryEvents(w, n - 1, j); }
  }

  /** For every environment: after an accepted publish the operation observes and sleeps in turn, goes on
      while the answers settle nothing and the budget lasts, and ends with an observation. */
  lemma WaitsUntilSettled(w: World, retries: int) returns (k: nat)
    requires w.tarballOk && w.observe(0) == Absent && w.publish == Accepted
    ensures |Calls(w, retries)| == 4 + 2 * k && Calls(w, retries)[3 + 2 * k] == Observe(w.observe(1 + k))
    ensures Final(w.observe(1 + k)) || k >= retries
    ensures k == 0 || k <= retries
    ensures forall j :: 0 <= j < k ==>
              && !Final(w.observe(1 + j))
              && Calls(w, retries)[3 + 2 * j] == Observe(w.observe(1 + j)) && Calls(w, retries)[4 + 2 * j] == Sleep
  {
    k := RetriesUsed(w, 0, retries);
    var log, middle := Calls(w, retries), RetryLog(w, k);
    assert log == [Read(true), Observe(Absent), Attempt(Accepted)] + middle + [Observe(w.observe(1 + k))];
    hide RetryLog, Calls;
    forall j | 0 <= j < k
      ensures !Final(w.observe(1 + j)) && log[3 + 2 * j] == Observe(w.observe(1 + j)) && log[4 + 2 * j] == Sleep
    {
      RetryEvents(w, k, j);
      assert log[3 + 2 * j] == middle[2 * j] && log[4 + 2 * j] == middle[2 * j + 1];
    }
  }

  /** An observation after which the operation may go on. */
  predicate Inconclusive(e: Event) { e.Observe? ==> !Final(e.answer) }

  lemma {:induction false} RetriesInconclusive(w: World, n: nat)
    requires forall j: nat :: 0 < j <= n ==> !Final(w.observe(j))
    ensures forall i :: 0 <= i < 2 * n ==> Inconclusive(RetryLog(w, n)[i])
  {
    if n > 0 { RetriesInconclusive(w, n - 1); }
  }

  /** For every environment: a found package or a failure that is not transient is the last answer, and
      a transient failure is survived only after an accepted publish. */
  lemma StopsAtFirstAnswer(w: World, retries: int)
    ensures forall i :: 0 <= i < |Calls(w, retries)| - 1 ==> Inconclusive(Calls(w, retries)[i])
    ensures forall i :: 0 <= i < |Calls(w, retries)| - 1 && Calls(w, retries)[i] == Observe(TransientFailure) ==>
              i > 2 && Calls(w, retries)[2] == Attempt(Accepted)
  {
    if w.tarballOk && w.observe(0) == Absent && w.publish == Accepted {
      var log, k := Calls(w, retries), RetriesUsed(w, 0, retries);
      assert log == [Read(true), Observe(Absent), Attempt(Accepted)] + RetryLog(w, k) + [Observe(w.observe(1 + k))];
      assert forall j: nat :: 0 < j <= k ==> !Final(w.observe(j));
      hide RetryLog, Calls, RetriesUsed;
      RetriesInconclusive(w, k);
      assert forall i :: 3 <= i < |log| - 1 ==> log[i] == RetryLog(w, k)[i - 3];
    }
  }

  lemma CountThree(log: seq<Event>, a: seq<Event>, b: seq<Event>, c: seq<Event>, p: Event -> bool)
    requires log == a + b + c
    ensures Count(log, p) == Count(a, p) + Count(b, p) + Count(c, p)
  {
    CountConcat(a + b, c, p);
    CountConcat(a, b, p);
  }

  lemma SmallCounts(head: seq<Event>, last: seq<Event>)
    requires |head| == 3 && head[0].Read? && head[1].Observe? && head[2].Attempt? && |last| == 1 && last[0].Observe?
    ensures Count(head, IsAttempt) == 1 && Count(head, IsObserve) == 1 && Count(head, IsSleep) == 0
    ensures Count(last, IsAttempt) == 0 && Count(last, IsObserve) == 1 && Count(last, IsSleep) == 0
  {
    ShortCounts(head);
    assert last[..0] == [];
  }

  lemma ShortCounts(log: seq<Event>)
    requires 1 <= |log| <= 4 && log[0].Read? && (|log| >= 2 ==> log[1].Observe?) && (|log| >= 3 ==> log[2].Attempt?)
    requires |log| == 4 ==> log[3].Observe?
    ensures Count(log, IsAttempt) == (if |log| >= 3 then 1 else 0) && Count(log, IsSleep) == 0
    ensures Count(log, IsObserve) == (if |log| == 1 then 0 else if |log| == 4 then 2 else 1)
  {
    assert log[..1][..0] == [];
    if |log| >= 2 { assert log[..2][..1] == log[..1]; }
    if |log| >= 3 { assert log[..3][..2] == log[..2]; }
    assert log[..|log|] == log;
  }

  /** A returned observation was the last answer and is exactly the expected evidence, tagged latest. */
  lemma {:induction false} ReturnsOnlyExact(record: PackageRecord, retries: int, log: seq<Event>)
    requires Run(record, retries, Reading, log).Returned?
    ensures Exact(record, Run(record, retries, Reading, log).observation)
    ensures Observe(Seen(Run(record, retries, Reading, log).observation)) in log
  {
    var n := |log| - 1;
    var before := Run(record, retries, Reading, log[..n]);
    if before.Returned? {
      ReturnsOnlyExact(record, retries, log[..n]);
    }
    assert log[n] in log;
  }
}

/** The deterministic topological ordering behind publication planning. */
module Kahn {
  import opened Common
  import opened Sorting

  type Graph = map<Name, set<Name>>

  ghost predicate Distinct(s: seq<Name>) {
    forall i, j :: 0 <= i < j < |s| ==> s[i] != s[j]
  }

  /** Declared names without repetition; every dependency is a declared name. */
  ghost predicate WellFormed(nodes: seq<Name>, deps: Graph) {
    && Distinct(nodes)
    && deps.Keys == Elements(nodes)
    && forall n :: n in deps ==> deps[n] <= deps.Keys
  }

  ghost predicate DependenciesFirst(order: seq<Name>, deps: Graph) {
    forall i :: 0 <= i < |order| ==> order[i] in deps && deps[order[i]] <= Elements(order[..i])
  }

  /** A permutation of the declared names with every dependency before its dependents. */
  ghost predicate IsTopological(order: seq<Name>, nodes: seq<Name>, deps: Graph) {
    && Distinct(order) && Elements(order) == Elements(nodes) && |order| == |nodes|
    && DependenciesFirst(order, deps)
  }

  /** Declaration index. */
  function Index(nodes: seq<Name>, n: Name): (i: nat)
    requires n in nodes
    ensures i < |nodes| && nodes[i] == n
  {
    if nodes[0] == n then 0 else 1 + Index(nodes[1..], n)
  }

  /** At the first difference, `p` takes the earlier declared name. */
  ghost predicate LexBefore(p: seq<Name>, q: seq<Name>, nodes: seq<Name>) {
    exists i :: 0 <= i < |p| && i < |q| && p[..i] == q[..i] && p[i] in nodes && q[i] in nodes
                && Index(nodes, p[i]) < Index(nodes, q[i])
  }

  ghost predicate IsCycle(c: seq<Name>, deps: Graph) {
    c != [] && forall i :: 0 <= i < |c| ==> c[i] in deps && Successor(c, i) in deps[c[i]]
  }

  function Successor(c: seq<Name>, i: nat): Name
    requires i < |c|
  {
    if i + 1 < |c| then c[i + 1] else c[0]
  }

  /** Not yet placed, with every dependency placed. */
  ghost predicate Available(n: Name, placed: seq<Name>, deps: Graph) {
    n in deps && n !in placed && deps[n] <= Elements(placed)
  }

  /** Every placed name was the earliest declared of those available at its turn. */
  ghost predicate Greedy(order: seq<Name>, nodes: seq<Name>, deps: Graph) {
    forall i, m :: 0 <= i < |order| && m in nodes && Available(m, order[..i], deps) ==>
                     order[i] in nodes && Index(nodes, order[i]) <= Index(nodes, m)
  }

  // ---------------------------------------------------------------- the greedy order is the least

  lemma {:induction false} FirstDifference(p: seq<Name>, q: seq<Name>) returns (i: nat)
    requires |p| == |q| && p != q
    ensures i < |p| && p[..i] == q[..i] && p[i] != q[i]
  {
    if p[0] != q[0] {
      i := 0;
    } else {
      assert p == [p[0]] + p[1..] && q == [q[0]] + q[1..];
      var k := FirstDifference(p[1..], q[1..]);
      i := k + 1;
      assert p[..i] == [p[0]] + p[1..][..k] && q[..i] == [q[0]] + q[1..][..k];
    }
  }

  lemma GreedyIsLeast(order: seq<Name>, other: seq<Name>, nodes: seq<Name>, deps: Graph)
    requires IsTopological(order, nodes, deps) && Greedy(order, nodes, deps)
    requires IsTopological(other, nodes, deps)
    ensures other == order || LexBefore(order, other, nodes)
  {
    if other != order {
      var i := FirstDifference(order, other);
      assert order[i] in Elements(order) && other[i] in Elements(other);
      assert other[i] !in other[..i];
      assert Available(other[i], order[..i], deps);
      assert Index(nodes, order[i]) != Index(nodes, other[i]);
    }
  }

  // ---------------------------------------------------------------- cycles

  lemma {:induction false} DistinctSize(s: seq<Name>)
    requires Distinct(s)
    ensures |Elements(s)| == |s|
  {
    if s != [] {
      var n := |s| - 1;
      DistinctSize(s[..n]);
      assert Elements(s) == Elements(s[..n]) + {s[n]};
      assert s[n] !in Elements(s[..n]);
    }
  }

  ghost predicate IsWalk(walk: seq<Name>, deps: Graph, among: set<Name>) {
    && walk != [] && Distinct(walk) && Elements(walk) <= among
    && forall i :: 0 <= i < |walk| - 1 ==> walk[i] in deps && walk[i + 1] in deps[walk[i]]
  }

  lemma WalkCloses(deps: Graph, among: set<Name>, walk: seq<Name>, k: nat)
    requires IsWalk(walk, deps, among) && k < |walk|
    requires walk[|walk| - 1] in deps && walk[k] in deps[walk[|walk| - 1]]
    ensures IsCycle(walk[k..], deps)
  {
    var c := walk[k..];
    forall i | 0 <= i < |c| ensures c[i] in deps && Successor(c, i) in deps[c[i]] {
      assert c[i] == walk[k + i];
      if i + 1 < |c| { assert c[i + 1] == walk[k + i + 1]; }
    }
  }

  lemma WalkGrows(deps: Graph, among: set<Name>, walk: seq<Name>, d: Name)
    requires IsWalk(walk, deps, among) && d !in walk && d in among
    requires walk[|walk| - 1] in deps && d in deps[walk[|walk| - 1]]
    ensures IsWalk(walk + [d], deps, among) && |walk| < |among|
  {
    var longer := walk + [d];
    assert Elements(longer) == Elements(walk) + {d};
    DistinctAppend(walk, d);
    forall i | 0 <= i < |longer| - 1 ensures longer[i] in deps && longer[i + 1] in deps[longer[i]] {
      if i + 1 < |walk| { assert longer[i] == walk[i] && longer[i + 1] == walk[i + 1]; }
    }
    hide Distinct;
    DistinctSize(longer);
    SubsetSize(Elements(longer), among);
  }

  /** If every name of a set depends on a name of that set, following dependencies closes a cycle. */
  lemma {:induction false} BlockedSetHasCycle(deps: Graph, among: set<Name>, walk: seq<Name>) returns (c: seq<Name>)
    requires IsWalk(walk, deps, among)
    requires forall n :: n in among ==> n in deps && deps[n] * among != {}
    ensures IsCycle(c, deps)
    decreases |among| - |walk|
  {
    var last := walk[|walk| - 1];
    assert last in Elements(walk);
    hide IsWalk, IsCycle;
    var d :| d in deps[last] * among;
    if d in walk {
      var k :| 0 <= k < |walk| && walk[k] == d;
      WalkCloses(deps, among, walk, k);
      c := walk[k..];
    } else {
      WalkGrows(deps, among, walk, d);
      c := BlockedSetHasCycle(deps, among, walk + [d]);
    }
  }

  lemma CycleStep(order: seq<Name>, deps: Graph, c: seq<Name>, k: nat)
    requires IsCycle(c, deps) && DependenciesFirst(order, deps) && Distinct(order) && Elements(order) == deps.Keys
    requires k < |c|
    ensures c[k] in order && Successor(c, k) in order && Index(order, Successor(c, k)) < Index(order, c[k])
  {
    hide DependenciesFirst, Distinct;
    assert c[k] in Elements(order);
    DependencyEarlier(order, deps, c[k], Successor(c, k));
  }

  /** In a topological order a cycle would have to precede itself. */
  lemma {:induction false} CyclePositions(order: seq<Name>, deps: Graph, c: seq<Name>, k: nat)
    requires IsCycle(c, deps) && DependenciesFirst(order, deps) && Distinct(order) && Elements(order) == deps.Keys
    requires k < |c|
    ensures c[0] in order && c[k] in order && Index(order, c[k]) + k <= Index(order, c[0])
  {
    hide IsCycle, DependenciesFirst, Distinct, Elements, Index;
    CycleStep(order, deps, c, 0);
    if k > 0 {
      CyclePositions(order, deps, c, k - 1);
      CycleStep(order, deps, c, k - 1);
    }
  }

  lemma DependencyEarlier(order: seq<Name>, deps: Graph, n: Name, d: Name)
    requires DependenciesFirst(order, deps) && Distinct(order) && n in order && n in deps && d in deps[n]
    ensures d in order && Index(order, d) < Index(order, n)
  {
    var i := Index(order, n);
    assert d in Elements(order[..i]);
    var j :| 0 <= j < i && order[..i][j] == d;
    assert order[j] == d;
  }

  lemma CycleMeansNoOrder(order: seq<Name>, nodes: seq<Name>, deps: Graph, c: seq<Name>)
    requires WellFormed(nodes, deps) && IsCycle(c, deps)
    ensures !IsTopological(order, nodes, deps)
  {
    if IsTopological(order, nodes, deps) {
      var last := |c| - 1;
      CyclePositions(order, deps, c, last);
      CycleStep(order, deps, c, last);
    }
  }

  // ---------------------------------------------------------------- the algorithm

  /** dependents lists every dependent of a name once. */
  ghost predicate Reverse(dependents: map<Name, seq<Name>>, nodes: seq<Name>, deps: Graph) {
    && dependents.Keys == deps.Keys
    && forall d :: d in dependents ==>
                     Distinct(dependents[d])
                     && forall m :: m in dependents[d] <==> m in nodes && m in deps && d in deps[m]
  }

  /** Every counter covers the dependencies of the records counted so far. */
  ghost predicate Counted(indegree: map<Name, nat>, done: seq<Name>, deps: Graph) {
    indegree.Keys == deps.Keys && forall n :: n in deps ==> indegree[n] == if n in done then |deps[n]| else 0
  }

  method CountDependencies(nodes: seq<Name>, deps: Graph)
    returns (indegree: map<Name, nat>, dependents: map<Name, seq<Name>>)
    requires WellFormed(nodes, deps)
    ensures Counted(indegree, nodes, deps)
    ensures Reverse(dependents, nodes, deps)
  {
    hide *;
    indegree := map n | n in deps.Keys :: 0;
    dependents := map n | n in deps.Keys :: [];
    CountedStart(indegree, dependents, nodes[..0], deps);
    for i := 0 to |nodes|
      invariant Counted(indegree, nodes[..i], deps)
      invariant Reverse(dependents, nodes[..i], deps)
    {
      NextRecord(nodes, i, deps);
      CountedKeys(indegree, dependents, nodes[..i], deps);
      ghost var count, before := indegree, dependents;
      indegree, dependents := CountOne(nodes[i], deps, indegree, dependents);
      CountedStep(count, indegree, nodes[..i], nodes[i], deps);
      ReverseStep(before, dependents, nodes[..i], nodes[i], deps);
    }
    assert nodes[..|nodes|] == nodes;
  }

  lemma CountedStart(indegree: map<Name, nat>, dependents: map<Name, seq<Name>>, none: seq<Name>, deps: Graph)
    requires none == [] && indegree.Keys == deps.Keys && dependents.Keys == deps.Keys
    requires forall n :: n in deps ==> indegree[n] == 0 && dependents[n] == []
    ensures Counted(indegree, none, deps) && Reverse(dependents, none, deps)
  {
  }

  lemma NextRecord(nodes: seq<Name>, i: nat, deps: Graph)
    requires WellFormed(nodes, deps) && i < |nodes|
    ensures nodes[i] in deps && deps[nodes[i]] <= deps.Keys && nodes[i] !in nodes[..i]
    ensures nodes[..i + 1] == nodes[..i] + [nodes[i]]
  {
    assert nodes[i] in Elements(nodes);
  }

  lemma CountedKeys(indegree: map<Name, nat>, dependents: map<Name, seq<Name>>, done: seq<Name>, deps: Graph)
    requires Counted(indegree, done, deps) && Reverse(dependents, done, deps)
    ensures indegree.Keys == deps.Keys && dependents.Keys == deps.Keys
  {
  }

  lemma CountedStep(before: map<Name, nat>, after: map<Name, nat>, done: seq<Name>, record: Name, deps: Graph)
    requires Counted(before, done, deps) && record in deps && record !in done
    requires Raised(after, before, record, |deps[record]|)
    ensures Counted(after, done + [record], deps)
  {
  }

  /** `record` was appended to the lists of the names in `done` and nowhere else. */
  ghost predicate Pushed(after: map<Name, seq<Name>>, before: map<Name, seq<Name>>, done: set<Name>, record: Name) {
    && after.Keys == before.Keys
    && forall d :: d in before ==> after[d] == if d in done then before[d] + [record] else before[d]
  }

  lemma KeysKept(after: map<Name, seq<Name>>, before: map<Name, seq<Name>>, done: set<Name>, record: Name)
    requires Pushed(after, before, done, record)
    ensures after.Keys == before.Keys
  {
  }

  lemma PushOne(after: map<Name, seq<Name>>, before: map<Name, seq<Name>>, done: set<Name>, record: Name, d: Name)
    requires Pushed(after, before, done, record) && d in before && d !in done
    ensures d in after && Pushed(after[d := after[d] + [record]], before, done + {d}, record)
  {
  }

  /** The inner loop, in whatever order the dependencies are visited. */
  ghost predicate Split(todo: set<Name>, done: set<Name>, all: set<Name>) {
    todo !! done && todo + done == all
  }

  lemma MoveOne(todo: set<Name>, done: set<Name>, all: set<Name>, x: Name)
    requires Split(todo, done, all) && x in todo
    ensures Split(todo - {x}, done + {x}, all) && |done + {x}| == |done| + 1 && x !in done && x in all
  {
  }

  lemma CountStart(indegree: map<Name, nat>, dependents: map<Name, seq<Name>>, record: Name, all: set<Name>)
    requires record in indegree
    ensures Raised(indegree, indegree, record, 0) && Pushed(dependents, dependents, {}, record) && Split(all, {}, all)
  {
  }

  lemma AllMoved(done: set<Name>, all: set<Name>)
    requires Split({}, done, all)
    ensures done == all
  {
  }

  /** The counter of `record` went up by k. */
  ghost predicate Raised(indegree: map<Name, nat>, indegree0: map<Name, nat>, record: Name, k: nat) {
    record in indegree0 && indegree == indegree0[record := indegree0[record] + k]
  }

  lemma RaiseOne(indegree: map<Name, nat>, indegree0: map<Name, nat>, record: Name, k: nat)
    requires Raised(indegree, indegree0, record, k)
    ensures record in indegree && Raised(indegree[record := indegree[record] + 1], indegree0, record, k + 1)
  {
  }

  method CountOne(record: Name, deps: Graph, indegree0: map<Name, nat>, dependents0: map<Name, seq<Name>>)
    returns (indegree: map<Name, nat>, dependents: map<Name, seq<Name>>)
    requires record in deps && deps[record] <= deps.Keys && indegree0.Keys == deps.Keys && dependents0.Keys == deps.Keys
    ensures Raised(indegree, indegree0, record, |deps[record]|)
    ensures Pushed(dependents, dependents0, deps[record], record)
  {
    hide *;
    indegree, dependents := indegree0, dependents0;
    var todo, done := deps[record], {};
    CountStart(indegree0, dependents0, record, deps[record]);
    KeysKept(dependents, dependents0, done, record);
    while todo != {}
      invariant Split(todo, done, deps[record])
      invariant Raised(indegree, indegree0, record, |done|)
      invariant Pushed(dependents, dependents0, done, record)
    {
      var dependency :| dependency in todo;
      MoveOne(todo, done, deps[record], dependency);
      RaiseOne(indegree, indegree0, record, |done|);
      indegree := indegree[record := indegree[record] + 1];
      KeysKept(dependents, dependents0, done, record);
      PushOne(dependents, dependents0, done, record, dependency);
      dependents := dependents[dependency := dependents[dependency] + [record]];
      todo, done := todo - {dependency}, done + {dependency};
    }
    AllMoved(done, deps[record]);
  }

  lemma ReverseStep(before: map<Name, seq<Name>>, after: map<Name, seq<Name>>, done: seq<Name>, record: Name,
                    deps: Graph)
    requires Reverse(before, done, deps) && record !in done && record in deps
             && Pushed(after, before, deps[record], record)
    ensures Reverse(after, done + [record], deps)
  {
    forall d | d in after
      ensures Distinct(after[d]) && forall m :: m in after[d] <==> m in done + [record] && m in deps && d in deps[m]
    {
      assert record !in before[d];
    }
  }

  predicate IndexLeq(nodes: seq<Name>, a: Name, b: Name) {
    a in nodes && b in nodes && Index(nodes, a) <= Index(nodes, b)
  }

  /** ready holds exactly the available names, once each. */
  ghost predicate ReadyIs(ready: seq<Name>, ordered: seq<Name>, deps: Graph) {
    Distinct(ready) && forall n :: n in ready <==> Available(n, ordered, deps)
  }

  /** Remaining dependencies of every name. */
  ghost predicate Remaining(indegree: map<Name, nat>, ordered: seq<Name>, deps: Graph) {
    indegree.Keys == deps.Keys && forall n :: n in deps ==> indegree[n] == |Waiting(n, ordered, deps)|
  }

  ghost predicate LoopState(indegree: map<Name, nat>, ready: seq<Name>, ordered: seq<Name>, nodes: seq<Name>,
                            deps: Graph) {
    && Remaining(indegree, ordered, deps)
    && ReadyIs(ready, ordered, deps)
    && Distinct(ordered) && Elements(ordered) <= deps.Keys
    && DependenciesFirst(ordered, deps)
    && Greedy(ordered, nodes, deps)
  }

  /** What a name still waits for. */
  ghost function Waiting(n: Name, ordered: seq<Name>, deps: Graph): set<Name>
    requires n in deps
  {
    deps[n] - Elements(ordered)
  }

  /** The counters of the names in `done` were lowered by one, the others not. */
  ghost predicate Lowered(indegree: map<Name, nat>, done: seq<Name>, ordered: seq<Name>, deps: Graph) {
    && indegree.Keys == deps.Keys
    && forall n :: n in deps ==> indegree[n] == |Waiting(n, ordered, deps)| - (if n in done then 1 else 0)
  }

  /** The names of `done` whose last dependency is now placed joined the queue. */
  ghost predicate Joined(ready: seq<Name>, ready0: seq<Name>, done: seq<Name>, ordered: seq<Name>, deps: Graph) {
    && Distinct(ready)
    && forall n :: n in ready <==> n in ready0 || (n in done && n in deps && |Waiting(n, ordered, deps)| == 1)
  }

  lemma LowerOne(indegree: map<Name, nat>, done: seq<Name>, ordered: seq<Name>, deps: Graph, n: Name)
    requires Lowered(indegree, done, ordered, deps) && n in deps && n !in done && |Waiting(n, ordered, deps)| >= 1
    ensures n in indegree && indegree[n] == |Waiting(n, ordered, deps)|
    ensures Lowered(indegree[n := indegree[n] - 1], done + [n], ordered, deps)
  {
  }

  lemma JoinOne(ready: seq<Name>, ready0: seq<Name>, done: seq<Name>, ordered: seq<Name>, deps: Graph, n: Name)
    requires Joined(ready, ready0, done, ordered, deps) && n in deps && n !in done && n !in ready0
    ensures Joined(if |Waiting(n, ordered, deps)| == 1 then ready + [n] else ready, ready0, done + [n], ordered, deps)
  {
  }

  /** Release the dependents of a placed name: every counter that reaches zero becomes ready. */
  method Release(next: Name, dependents: seq<Name>, indegree0: map<Name, nat>, ready0: seq<Name>,
                 ghost ordered: seq<Name>, ghost nodes: seq<Name>, ghost deps: Graph)
    returns (indegree: map<Name, nat>, ready: seq<Name>)
    requires deps.Keys == Elements(nodes) && Closed(ordered, deps)
    requires Distinct(dependents) && forall m :: m in dependents <==> m in nodes && m in deps && next in deps[m]
    requires Remaining(indegree0, ordered, deps) && next in deps && next !in ordered && deps[next] <= Elements(ordered)
    requires Distinct(ready0) && forall n :: n in ready0 <==> n != next && Available(n, ordered, deps)
    ensures Remaining(indegree, ordered + [next], deps)
    ensures ReadyIs(ready, ordered + [next], deps)
  {
    hide *;
    indegree, ready := indegree0, ready0;
    ReleaseStart(indegree0, ready0, dependents[..0], ordered, deps);
    for j := 0 to |dependents|
      invariant Lowered(indegree, dependents[..j], ordered, deps)
      invariant Joined(ready, ready0, dependents[..j], ordered, deps)
    {
      var dependent := dependents[j];
      assert dependent in dependents;
      NotYetReleased(dependents, j);
      StillBlocked(dependent, next, ordered, deps);
      LowerOne(indegree, dependents[..j], ordered, deps, dependent);
      JoinOne(ready, ready0, dependents[..j], ordered, deps, dependent);
      var remaining := indegree[dependent] - 1;
      indegree := indegree[dependent := remaining];
      if remaining == 0 { ready := ready + [dependent]; }
    }
    assert dependents[..|dependents|] == dependents;
    ReleasedCounters(next, dependents, indegree, ordered, nodes, deps);
    ReleasedReady(next, dependents, ready0, ready, ordered, nodes, deps);
  }

  lemma ReleaseStart(indegree: map<Name, nat>, ready: seq<Name>, none: seq<Name>, ordered: seq<Name>, deps: Graph)
    requires none == [] && Remaining(indegree, ordered, deps) && Distinct(ready)
    ensures Lowered(indegree, none, ordered, deps) && Joined(ready, ready, none, ordered, deps)
  {
  }

  lemma NotYetReleased(s: seq<Name>, j: nat)
    requires Distinct(s) && j < |s|
    ensures s[j] !in s[..j] && s[..j + 1] == s[..j] + [s[j]]
  {
  }

  lemma StillBlocked(n: Name, next: Name, ordered: seq<Name>, deps: Graph)
    requires n in deps && next in deps[n] && next !in ordered
    ensures !Available(n, ordered, deps) && |Waiting(n, ordered, deps)| >= 1
  {
    assert next in Waiting(n, ordered, deps);
  }

  lemma WaitingAfter(n: Name, next: Name, ordered: seq<Name>, deps: Graph)
    requires n in deps && next !in ordered
    ensures Waiting(n, ordered + [next], deps) == Waiting(n, ordered, deps) - {next}
    ensures |Waiting(n, ordered + [next], deps)| == |Waiting(n, ordered, deps)| - (if next in deps[n] then 1 else 0)
  {
    assert Elements(ordered + [next]) == Elements(ordered) + {next};
    RemovingOne(Waiting(n, ordered, deps), next);
  }

  lemma ReleasedCounters(next: Name, dependents: seq<Name>, indegree: map<Name, nat>, ordered: seq<Name>,
                         nodes: seq<Name>, deps: Graph)
    requires deps.Keys == Elements(nodes) && next !in ordered
    requires forall m :: m in dependents <==> m in nodes && m in deps && next in deps[m]
    requires Lowered(indegree, dependents, ordered, deps)
    ensures Remaining(indegree, ordered + [next], deps)
  {
    hide Waiting;
    forall n | n in deps ensures indegree[n] == |Waiting(n, ordered + [next], deps)| {
      assert n in Elements(nodes);
      WaitingAfter(n, next, ordered, deps);
    }
  }

  lemma ReleasedReady(next: Name, dependents: seq<Name>, ready0: seq<Name>, ready: seq<Name>, ordered: seq<Name>,
                      nodes: seq<Name>, deps: Graph)
    requires deps.Keys == Elements(nodes) && next !in ordered
    requires next in deps && deps[next] <= Elements(ordered) && Closed(ordered, deps)
    requires forall m :: m in dependents <==> m in nodes && m in deps && next in deps[m]
    requires forall n :: n in ready0 <==> n != next && Available(n, ordered, deps)
    requires Joined(ready, ready0, dependents, ordered, deps)
    ensures ReadyIs(ready, ordered + [next], deps)
  {
    forall n ensures n in ready <==> Available(n, ordered + [next], deps) {
      if n in deps {
        assert n in Elements(nodes);
        hide Available, Waiting, Closed, Elements;
        ReadyAfter(n, next, ordered, deps);
      }
    }
  }

  /** Placed names have all their dependencies placed. */
  ghost predicate Closed(ordered: seq<Name>, deps: Graph) {
    forall m :: m in ordered ==> m in deps && deps[m] <= Elements(ordered)
  }

  lemma ReadyAfter(n: Name, next: Name, ordered: seq<Name>, deps: Graph)
    requires n in deps && next !in ordered && next in deps && deps[next] <= Elements(ordered) && Closed(ordered, deps)
    ensures Available(n, ordered + [next], deps) <==>
              (n != next && Available(n, ordered, deps)) || (next in deps[n] && |Waiting(n, ordered, deps)| == 1)
  {
    WaitingAfter(n, next, ordered, deps);
    var left, after := Waiting(n, ordered, deps), Waiting(n, ordered + [next], deps);
    NothingLeft(deps[n], Elements(ordered));
    NothingLeft(deps[n], Elements(ordered + [next]));
    assert |left| == 0 <==> left == {};
    assert |after| == 0 <==> after == {};
    assert n in ordered ==> left == {};
    assert n == next ==> left == {};
  }

  lemma NothingLeft(a: set<Name>, b: set<Name>)
    ensures a <= b <==> a - b == {}
  {
    if a - b == {} {
      forall x | x in a ensures x in b {
        assert x !in a - b;
      }
    }
  }

  lemma RemovingOne(s: set<Name>, x: Name)
    ensures |s - {x}| == |s| - (if x in s then 1 else 0)
  {
    if x !in s { assert s - {x} == s; }
  }

  // ---------------------------------------------------------------- the main loop

  lemma SortedReady(ready: seq<Name>, sorted: seq<Name>, ordered: seq<Name>, nodes: seq<Name>, deps: Graph)
    requires WellFormed(nodes, deps) && ReadyIs(ready, ordered, deps)
    requires sorted == Sort(ready, (a: Name, b: Name) => IndexLeq(nodes, a, b))
    ensures ReadyIs(sorted, ordered, deps) && |sorted| == |ready|
    ensures sorted != [] ==> sorted[0] in nodes && forall m :: m in sorted ==>
              m in nodes && Index(nodes, sorted[0]) <= Index(nodes, m)
  {
    var leq := (a: Name, b: Name) => IndexLeq(nodes, a, b);
    SortPermutes(ready, leq);
    SameElements(ready, sorted);
    forall m | m in ready ensures m in nodes {
      assert m in Elements(nodes);
    }
    var dom := Elements(ready);
    SortSorts(ready, leq, dom);
    forall m | m in sorted ensures m in nodes && sorted[0] in nodes && Index(nodes, sorted[0]) <= Index(nodes, m) {
      assert m in ready && sorted[0] in ready;
      var i :| 0 <= i < |sorted| && sorted[i] == m;
      assert i == 0 || leq(sorted[0], sorted[i]);
    }
    SameDistinct(ready, sorted);
  }

  lemma SameDistinct(a: seq<Name>, b: seq<Name>)
    requires Distinct(a) && multiset(a) == multiset(b)
    ensures Distinct(b)
  {
    var key := (n: Name) => n;
    assert DistinctKeys(a, key);
    DistinctKeysPermute(a, b, key);
    assert forall i, j :: 0 <= i < j < |b| ==> key(b[i]) != key(b[j]);
  }

  lemma DistinctAppend(s: seq<Name>, x: Name)
    ensures Distinct(s) && x !in Elements(s) ==> Distinct(s + [x])
  {
  }

  /** Placing the earliest declared available name keeps the order greedy and dependencies first. */
  lemma PlaceNext(ordered: seq<Name>, next: Name, nodes: seq<Name>, deps: Graph)
    requires WellFormed(nodes, deps) && Distinct(ordered) && Elements(ordered) <= deps.Keys
    requires DependenciesFirst(ordered, deps) && Greedy(ordered, nodes, deps)
    requires Available(next, ordered, deps) && next in nodes
    requires forall m :: m in nodes && Available(m, ordered, deps) ==> Index(nodes, next) <= Index(nodes, m)
    ensures var o := ordered + [next];
            Distinct(o) && Elements(o) <= deps.Keys && DependenciesFirst(o, deps) && Greedy(o, nodes, deps)
  {
    hide WellFormed, Distinct, DependenciesFirst, Greedy, Available, Index;
    AvailableMeans(next, ordered, deps);
    assert Elements(ordered + [next]) == Elements(ordered) + {next};
    DistinctAppend(ordered, next);
    DependenciesFirstNext(ordered, next, deps);
    GreedyNext(ordered, next, nodes, deps);
  }

  lemma DependenciesFirstNext(ordered: seq<Name>, next: Name, deps: Graph)
    requires DependenciesFirst(ordered, deps) && next in deps && deps[next] <= Elements(ordered)
    ensures DependenciesFirst(ordered + [next], deps)
  {
    hide Elements;
    var o := ordered + [next];
    assert forall i :: 0 <= i < |ordered| ==> o[..i] == ordered[..i] && o[i] == ordered[i];
    assert o[..|ordered|] == ordered;
  }

  lemma GreedyNext(ordered: seq<Name>, next: Name, nodes: seq<Name>, deps: Graph)
    requires Greedy(ordered, nodes, deps) && next in nodes
    requires forall m :: m in nodes && Available(m, ordered, deps) ==> Index(nodes, next) <= Index(nodes, m)
    ensures Greedy(ordered + [next], nodes, deps)
  {
    hide Available, Index;
    var o := ordered + [next];
    forall i, m | 0 <= i < |o| && m in nodes && Available(m, o[..i], deps)
      ensures o[i] in nodes && Index(nodes, o[i]) <= Index(nodes, m)
    {
      if i < |ordered| { assert o[..i] == ordered[..i] && o[i] == ordered[i]; } else { assert o[..i] == ordered; }
    }
  }

  lemma AvailableMeans(n: Name, ordered: seq<Name>, deps: Graph)
    ensures Available(n, ordered, deps) <==> n in deps && n !in ordered && deps[n] <= Elements(ordered)
  {
  }

  lemma PlacedAreClosed(ordered: seq<Name>, deps: Graph)
    requires DependenciesFirst(ordered, deps)
    ensures Closed(ordered, deps)
  {
    forall m | m in ordered ensures m in deps && deps[m] <= Elements(ordered) {
      var i :| 0 <= i < |ordered| && ordered[i] == m;
      assert Elements(ordered[..i]) <= Elements(ordered);
    }
  }

  lemma PlacedFit(ordered: seq<Name>, nodes: seq<Name>, deps: Graph)
    requires WellFormed(nodes, deps) && Distinct(ordered) && Elements(ordered) <= deps.Keys
    ensures |ordered| <= |nodes| && deps.Keys == Elements(nodes)
    ensures |ordered| == |nodes| <==> Elements(ordered) == Elements(nodes)
  {
    DistinctSize(ordered);
    DistinctSize(nodes);
    SubsetSize(Elements(ordered), Elements(nodes));
    if |ordered| == |nodes| { SameSize(Elements(ordered), Elements(nodes)); }
  }

  lemma SameSize(a: set<Name>, b: set<Name>)
    requires a <= b && |a| == |b|
    ensures a == b
  {
    assert b == a + (b - a);
    assert |b| == |a| + |b - a|;
  }

  /** A set of names each waiting for another member of the set: none of them can ever be placed. */
  ghost predicate Deadlocked(s: set<Name>, deps: Graph) {
    forall n :: n in s ==> n in deps && deps[n] * s != {}
  }

  lemma {:induction false} DeadlockedNeverPlaced(ordered: seq<Name>, s: set<Name>, deps: Graph)
    requires DependenciesFirst(ordered, deps) && Deadlocked(s, deps)
    ensures Elements(ordered) !! s
  {
    if ordered != [] {
      var n := |ordered| - 1;
      assert forall i :: 0 <= i < n ==> ordered[..n][..i] == ordered[..i];
      DeadlockedNeverPlaced(ordered[..n], s, deps);
      assert Elements(ordered) == Elements(ordered[..n]) + {ordered[n]};
      assert deps[ordered[n]] <= Elements(ordered[..n]);
    }
  }

  /** The names of `nodes` that are in `s`, in the order of `nodes`. */
  ghost function Chosen(nodes: seq<Name>, s: set<Name>): (r: seq<Name>)
    ensures forall n :: n in r <==> n in nodes && n in s
  {
    if nodes == [] then []
    else
      var n := |nodes| - 1;
      assert forall x :: x in nodes <==> x in nodes[..n] || x == nodes[n];
      Chosen(nodes[..n], s) + if nodes[n] in s then [nodes[n]] else []
  }

  lemma {:induction false} ChosenAgain(nodes: seq<Name>, s: set<Name>, t: set<Name>)
    requires forall n :: n in nodes ==> (n in s <==> n in t)
    ensures Chosen(nodes, s) == Chosen(nodes, t)
  {
    if nodes != [] { ChosenAgain(nodes[..|nodes| - 1], s, t); }
  }

  method Blocked(nodes: seq<Name>, indegree: map<Name, nat>) returns (names: seq<Name>)
    requires indegree.Keys == Elements(nodes)
    ensures forall n :: n in names <==> n in nodes && n in indegree && indegree[n] > 0
    ensures names == Chosen(nodes, Elements(names))
  {
    names := [];
    ghost var positive := set n | n in indegree && indegree[n] > 0;
    for i := 0 to |nodes|
      invariant names == Chosen(nodes[..i], positive)
    {
      assert nodes[i] in Elements(nodes);
      assert nodes[..i + 1][..i] == nodes[..i];
      if indegree[nodes[i]] > 0 { names := names + [nodes[i]]; }
    }
    assert nodes[..|nodes|] == nodes;
    ChosenAgain(nodes, positive, Elements(names));
  }

  lemma BlockedIffUnplaced(n: Name, ordered: seq<Name>, deps: Graph)
    requires n in deps && Closed(ordered, deps) && !Available(n, ordered, deps)
    ensures |Waiting(n, ordered, deps)| > 0 <==> n !in ordered
    ensures n !in ordered ==> exists d :: d in deps[n] && d !in Elements(ordered)
  {
    NothingLeft(deps[n], Elements(ordered));
    assert |Waiting(n, ordered, deps)| == 0 <==> Waiting(n, ordered, deps) == {};
  }

  /** Nothing ready and something unplaced: the unplaced names are the largest deadlocked set. */
  lemma StuckIsDeadlocked(ordered: seq<Name>, indegree: map<Name, nat>, blocked: seq<Name>, nodes: seq<Name>,
                          deps: Graph)
    requires WellFormed(nodes, deps) && DependenciesFirst(ordered, deps) && Remaining(indegree, ordered, deps)
    requires forall n :: !Available(n, ordered, deps)
    requires forall n :: n in blocked <==> n in nodes && n in indegree && indegree[n] > 0
    ensures Elements(blocked) == deps.Keys - Elements(ordered)
    ensures Deadlocked(Elements(blocked), deps)
    ensures forall s :: Deadlocked(s, deps) ==> s <= Elements(blocked)
  {
    PlacedAreClosed(ordered, deps);
    hide Available, Closed, DependenciesFirst, Distinct;
    hide Waiting, WellFormed, Deadlocked;
    BlockedAreUnplaced(ordered, indegree, blocked, nodes, deps);
    UnplacedDeadlock(ordered, Elements(blocked), nodes, deps);
  }

  lemma BlockedAreUnplaced(ordered: seq<Name>, indegree: map<Name, nat>, blocked: seq<Name>, nodes: seq<Name>,
                           deps: Graph)
    requires WellFormed(nodes, deps) && Closed(ordered, deps) && Remaining(indegree, ordered, deps)
    requires forall n :: !Available(n, ordered, deps)
    requires forall n :: n in blocked <==> n in nodes && n in indegree && indegree[n] > 0
    ensures Elements(blocked) == deps.Keys - Elements(ordered)
  {
    hide Available, Closed, Distinct, Waiting;
    forall n ensures n in blocked <==> n in deps && n !in ordered {
      assert n in nodes <==> n in Elements(nodes);
      if n in deps { BlockedIffUnplaced(n, ordered, deps); }
    }
  }

  lemma UnplacedDeadlock(ordered: seq<Name>, unplaced: set<Name>, nodes: seq<Name>, deps: Graph)
    requires WellFormed(nodes, deps) && DependenciesFirst(ordered, deps) && Closed(ordered, deps)
    requires forall n :: !Available(n, ordered, deps)
    requires unplaced == deps.Keys - Elements(ordered)
    ensures Deadlocked(unplaced, deps)
    ensures forall s :: Deadlocked(s, deps) ==> s <= unplaced
  {
    hide Available, Closed, DependenciesFirst, Distinct;
    forall n | n in unplaced ensures n in deps && deps[n] * unplaced != {} {
      BlockedIffUnplaced(n, ordered, deps);
      var d :| d in deps[n] && d !in Elements(ordered);
      assert d in deps[n] * unplaced;
    }
    forall s | Deadlocked(s, deps) ensures s <= unplaced {
      DeadlockedNeverPlaced(ordered, s, deps);
    }
  }

  lemma StuckHasCycle(blocked: seq<Name>, deps: Graph) returns (c: seq<Name>)
    requires Deadlocked(Elements(blocked), deps) && blocked != []
    ensures IsCycle(c, deps)
  {
    assert Elements([blocked[0]]) <= Elements(blocked);
    c := BlockedSetHasCycle(deps, Elements(blocked), [blocked[0]]);
  }

  ghost predicate LeastOrder(order: seq<Name>, nodes: seq<Name>, deps: Graph) {
    forall other :: IsTopological(other, nodes, deps) ==> other == order || LexBefore(order, other, nodes)
  }

  /** The planner's ordering: the least topological order when the graph has no cycle, and otherwise
      exactly the names no order can place. */
  method Order(nodes: seq<Name>, deps: Graph) returns (r: Result<seq<Name>, seq<Name>>)
    requires WellFormed(nodes, deps)
    ensures r.Ok? <==> !exists c :: IsCycle(c, deps)
    ensures r.Ok? ==> IsTopological(r.value, nodes, deps) && LeastOrder(r.value, nodes, deps)
    ensures r.Err? ==> Deadlocked(Elements(r.error), deps) && forall s :: Deadlocked(s, deps) ==> s <= Elements(r.error)
    ensures r.Err? ==> r.error != [] && r.error == Chosen(nodes, Elements(r.error))
  {
    hide *;
    var indegree, dependents := CountDependencies(nodes, deps);
    var ready := InitialReady(nodes, indegree, deps);
    var ordered: seq<Name> := [];
    OrderStart(indegree, ready, ordered, nodes, deps);
    while ready != []
      invariant LoopState(indegree, ready, ordered, nodes, deps)
      decreases |nodes| - |ordered|
    {
      var sorted := Sort(ready, (a: Name, b: Name) => IndexLeq(nodes, a, b));
      StateParts(indegree, ready, ordered, nodes, deps);
      SortedReady(ready, sorted, ordered, nodes, deps);
      var next := sorted[0];
      NextParts(next, sorted, ordered, nodes, deps, dependents);
      indegree, ready := Release(next, dependents[next], indegree, sorted[1..], ordered, nodes, deps);
      PlaceNext(ordered, next, nodes, deps);
      ordered := ordered + [next];
      StateFrom(indegree, ready, ordered, nodes, deps);
      PlacedFit(ordered, nodes, deps);
    }
    StateParts(indegree, ready, ordered, nodes, deps);
    PlacedFit(ordered, nodes, deps);
    if |ordered| != |nodes| {
      var blocked := Blocked(nodes, indegree);
      NothingReady(ready, ordered, deps);
      StuckIsDeadlocked(ordered, indegree, blocked, nodes, deps);
      SomethingBlocked(blocked, ordered, nodes, deps);
      ghost var c := StuckHasCycle(blocked, deps);
      return Err(blocked);
    }
    OrderedResult(ordered, nodes, deps);
    r := Ok(ordered);
  }

  ghost predicate ZeroCounters(ready: seq<Name>, done: seq<Name>, indegree: map<Name, nat>) {
    Distinct(ready) && forall n :: n in ready <==> n in done && n in indegree && indegree[n] == 0
  }

  method InitialReady(nodes: seq<Name>, indegree: map<Name, nat>, ghost deps: Graph) returns (ready: seq<Name>)
    requires WellFormed(nodes, deps) && Counted(indegree, nodes, deps)
    ensures ReadyIs(ready, [], deps)
  {
    ready := [];
    for i := 0 to |nodes|
      invariant ZeroCounters(ready, nodes[..i], indegree)
    {
      NextRecord(nodes, i, deps);
      assert indegree.Keys == deps.Keys;
      hide *;
      ZeroStep(ready, nodes[..i], indegree, nodes[i]);
      if indegree[nodes[i]] == 0 { ready := ready + [nodes[i]]; }
    }
    assert nodes[..|nodes|] == nodes;
    InitialReadyIs(nodes, indegree, ready, deps);
  }

  lemma ZeroStep(ready: seq<Name>, done: seq<Name>, indegree: map<Name, nat>, n: Name)
    requires ZeroCounters(ready, done, indegree) && n !in done && n in indegree
    ensures ZeroCounters(if indegree[n] == 0 then ready + [n] else ready, done + [n], indegree)
  {
  }

  lemma InitialReadyIs(nodes: seq<Name>, indegree: map<Name, nat>, ready: seq<Name>, deps: Graph)
    requires WellFormed(nodes, deps) && Counted(indegree, nodes, deps) && ZeroCounters(ready, nodes, indegree)
    ensures ReadyIs(ready, [], deps)
  {
    assert Elements<Name>([]) == {};
    forall n ensures n in ready <==> Available(n, [], deps) {
      assert n in nodes <==> n in Elements(nodes);
      if n in deps { assert |deps[n]| == 0 <==> deps[n] == {}; }
    }
  }

  lemma NothingPlaced(n: Name, deps: Graph)
    requires n in deps
    ensures Waiting(n, [], deps) == deps[n]
  {
  }

  lemma StartRemaining(indegree: map<Name, nat>, nodes: seq<Name>, deps: Graph)
    requires WellFormed(nodes, deps) && Counted(indegree, nodes, deps)
    ensures Remaining(indegree, [], deps)
  {
    hide Waiting, Distinct;
    forall n | n in deps ensures indegree[n] == |Waiting(n, [], deps)| {
      assert n in Elements(nodes);
      NothingPlaced(n, deps);
    }
  }

  lemma OrderStart(indegree: map<Name, nat>, ready: seq<Name>, ordered: seq<Name>, nodes: seq<Name>, deps: Graph)
    requires WellFormed(nodes, deps) && Counted(indegree, nodes, deps) && ReadyIs(ready, [], deps) && ordered == []
    ensures LoopState(indegree, ready, ordered, nodes, deps)
  {
    hide Remaining, ReadyIs, WellFormed, Counted, Available, Index;
    StartRemaining(indegree, nodes, deps);
  }

  lemma StateParts(indegree: map<Name, nat>, ready: seq<Name>, ordered: seq<Name>, nodes: seq<Name>, deps: Graph)
    requires LoopState(indegree, ready, ordered, nodes, deps)
    ensures Remaining(indegree, ordered, deps) && ReadyIs(ready, ordered, deps) && Distinct(ordered)
    ensures Elements(ordered) <= deps.Keys && DependenciesFirst(ordered, deps) && Greedy(ordered, nodes, deps)
    ensures Closed(ordered, deps) && indegree.Keys == deps.Keys
  {
    PlacedAreClosed(ordered, deps);
  }

  lemma StateFrom(indegree: map<Name, nat>, ready: seq<Name>, ordered: seq<Name>, nodes: seq<Name>, deps: Graph)
    requires Remaining(indegree, ordered, deps) && ReadyIs(ready, ordered, deps) && Distinct(ordered)
    requires Elements(ordered) <= deps.Keys && DependenciesFirst(ordered, deps) && Greedy(ordered, nodes, deps)
    ensures LoopState(indegree, ready, ordered, nodes, deps)
  {
  }

  lemma NextParts(next: Name, sorted: seq<Name>, ordered: seq<Name>, nodes: seq<Name>, deps: Graph,
                  dependents: map<Name, seq<Name>>)
    requires WellFormed(nodes, deps) && Reverse(dependents, nodes, deps)
    requires ReadyIs(sorted, ordered, deps) && sorted != [] && next == sorted[0]
    requires forall m :: m in sorted ==> m in nodes && next in nodes && Index(nodes, next) <= Index(nodes, m)
    ensures deps.Keys == Elements(nodes) && next in deps && next !in ordered && deps[next] <= Elements(ordered)
            && next in dependents
    ensures Available(next, ordered, deps) && next in nodes
    ensures Distinct(dependents[next]) && forall m :: m in dependents[next] <==>
              m in nodes && m in deps && next in deps[m]
    ensures Distinct(sorted[1..]) && forall n :: n in sorted[1..] <==> n != next && Available(n, ordered, deps)
    ensures forall m :: m in nodes && Available(m, ordered, deps) ==> Index(nodes, next) <= Index(nodes, m)
  {
    assert next in sorted;
    hide Index;
    assert forall n :: n in sorted <==> n == next || n in sorted[1..];
    assert next !in sorted[1..];
  }

  lemma NothingReady(ready: seq<Name>, ordered: seq<Name>, deps: Graph)
    requires ReadyIs(ready, ordered, deps) && ready == []
    ensures forall n :: !Available(n, ordered, deps)
  {
  }

  lemma SomethingBlocked(blocked: seq<Name>, ordered: seq<Name>, nodes: seq<Name>, deps: Graph)
    requires WellFormed(nodes, deps) && Elements(blocked) == deps.Keys - Elements(ordered)
    requires Elements(ordered) <= deps.Keys && Elements(ordered) != Elements(nodes)
    ensures blocked != []
  {
    var n :| n in deps.Keys && n !in Elements(ordered);
    assert n in Elements(blocked);
  }

  lemma OrderedResult(ordered: seq<Name>, nodes: seq<Name>, deps: Graph)
    requires WellFormed(nodes, deps) && Distinct(ordered) && Elements(ordered) == Elements(nodes)
             && |ordered| == |nodes|
    requires DependenciesFirst(ordered, deps) && Greedy(ordered, nodes, deps)
    ensures IsTopological(ordered, nodes, deps) && LeastOrder(ordered, nodes, deps)
    ensures !exists c :: IsCycle(c, deps)
  {
    hide IsCycle, LexBefore, Greedy, DependenciesFirst, WellFormed;
    forall other | IsTopological(other, nodes, deps) ensures other == ordered || LexBefore(ordered, other, nodes) {
      GreedyIsLeast(ordered, other, nodes, deps);
    }
    forall c | IsCycle(c, deps) ensures false {
      CycleMeansNoOrder(ordered, nodes, deps, c);
    }
  }
}

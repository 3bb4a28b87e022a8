/** The dependent-closure worklists of the affected-path planner. */
module Dependents {
  import opened Common
  import Sorting

  /** A workspace package or a Cargo unit; `scopes` are a package's dependency tables. */
  datatype Unit = Unit(id: Name, location: string, scopes: seq<map<Name, string>>)

  ghost function Ids(units: seq<Unit>): set<Name> {
    set u | u in units :: u.id
  }

  ghost predicate DistinctIds(units: seq<Unit>) {
    forall i, j :: 0 <= i < j < |units| ==> units[i].id != units[j].id
  }

  /** `s` contains every listed dependent of its members; an empty name is never followed. */
  ghost predicate ClosedUnder(s: set<Name>, dependents: Name -> seq<Unit>) {
    forall n, u :: n in s && n.text != "" && u in dependents(n) ==> u.id in s
  }

  /** `s` is the least set that contains `initial` and is closed under dependents. */
  ghost predicate LeastClosed(s: set<Name>, initial: set<Name>, dependents: Name -> seq<Unit>) {
    && initial <= s && ClosedUnder(s, dependents)
    && forall t :: initial <= t && ClosedUnder(t, dependents) ==> s <= t
  }

  ghost predicate Within(dependents: Name -> seq<Unit>, known: set<Name>) {
    forall n, u :: u in dependents(n) ==> u.id in known
  }

  /** Every member was asked for or is a listed dependent, and so is in every closed set. */
  ghost predicate Forced(s: set<Name>, initial: set<Name>, dependents: Name -> seq<Unit>) {
    forall t :: initial <= t && ClosedUnder(t, dependents) ==> s <= t
  }

  /** Each member still waits in the queue or has all its dependents selected. */
  ghost predicate Handled(s: set<Name>, queue: seq<Name>, dependents: Name -> seq<Unit>) {
    forall n, u :: n in s && n !in queue && n.text != "" && u in dependents(n) ==> u.id in s
  }

  /** The selected units in insertion order, filed once under their id. */
  ghost predicate Selection(selected: seq<Unit>, ids: set<Name>) {
    DistinctIds(selected) && Ids(selected) == ids
  }

  /** `u` is the last starting unit of its id. */
  ghost predicate Latest(initial: seq<Unit>, u: Unit) {
    exists i :: 0 <= i < |initial| && initial[i] == u && forall j :: i < j < |initial| ==> initial[j].id != u.id
  }

  /** Some followed member lists `u` as a dependent. */
  ghost predicate Listed(ids: set<Name>, dependents: Name -> seq<Unit>, u: Unit) {
    exists n :: n in ids && n.text != "" && u in dependents(n)
  }

  /** Every selected unit is the last starting unit of its id or, for an id that did not start, a listed dependent. */
  ghost predicate Sourced(selected: seq<Unit>, ids: set<Name>, initial: seq<Unit>, dependents: Name -> seq<Unit>) {
    forall u :: u in selected ==> if u.id in Ids(initial) then Latest(initial, u) else Listed(ids, dependents, u)
  }

  lemma SourcedStep(selected: seq<Unit>, ids: set<Name>, initial: seq<Unit>, dependents: Name -> seq<Unit>, n: Name,
                    u: Unit)
    requires Sourced(selected, ids, initial, dependents) && Ids(initial) <= ids && u.id !in ids
    requires n in ids && n.text != "" && u in dependents(n)
    ensures Sourced(selected + [u], ids + {u.id}, initial, dependents)
  {
    hide Latest;
    assert Listed(ids + {u.id}, dependents, u);
  }

  lemma ForcedStep(s: set<Name>, initial: set<Name>, dependents: Name -> seq<Unit>, n: Name, u: Unit)
    requires Forced(s, initial, dependents) && n in s && n.text != "" && u in dependents(n)
    ensures Forced(s + {u.id}, initial, dependents)
  {
  }

  lemma SelectionStep(selected: seq<Unit>, ids: set<Name>, u: Unit)
    requires Selection(selected, ids) && u.id !in ids
    ensures Selection(selected + [u], ids + {u.id})
  {
    assert forall x :: x in selected ==> x.id in Ids(selected);
    var more := selected + [u];
    assert forall x :: x in more <==> x in selected || x == u;
    assert Ids(more) == Ids(selected) + {u.id};
  }

  /** Visit the dependents of one name: select and enqueue the ones not selected yet. */
  method VisitDependents(current: Name, found: seq<Unit>, selected0: seq<Unit>, ids0: set<Name>, queue0: seq<Name>,
                         ghost initial: seq<Unit>, ghost dependents: Name -> seq<Unit>)
    returns (selected: seq<Unit>, ids: set<Name>, queue: seq<Name>)
    requires found == dependents(current) && current in ids0 && current.text != ""
    requires Selection(selected0, ids0) && Forced(ids0, Ids(initial), dependents)
    requires Sourced(selected0, ids0, initial, dependents) && Ids(initial) <= ids0
    requires forall n, u :: n in ids0 && n !in queue0 && n != current && n.text != "" && u in dependents(n) ==>
               u.id in ids0
    ensures Selection(selected, ids) && Forced(ids, Ids(initial), dependents)
            && Sourced(selected, ids, initial, dependents)
    ensures Handled(ids, queue, dependents)
    ensures ids0 <= ids && ids <= ids0 + Ids(found)
    ensures ids == ids0 ==> queue == queue0
    ensures forall n :: n in queue ==> n in queue0 || n in ids
  {
    hide Sourced, Selection, Forced;
    selected, ids, queue := selected0, ids0, queue0;
    for k := 0 to |found|
      invariant Selection(selected, ids) && Forced(ids, Ids(initial), dependents)
                && Sourced(selected, ids, initial, dependents)
      invariant ids0 <= ids && (forall n :: n in ids - ids0 ==> n in queue) && (forall n :: n in queue0 ==> n in queue)
      invariant ids <= ids0 + Ids(found)
      invariant ids == ids0 ==> queue == queue0
      invariant forall n :: n in queue ==> n in queue0 || n in ids
      invariant forall j :: 0 <= j < k ==> found[j].id in ids
    {
      var candidate := found[k];
      if candidate.id !in ids {
        ForcedStep(ids, Ids(initial), dependents, current, candidate);
        SourcedStep(selected, ids, initial, dependents, current, candidate);
        SelectionStep(selected, ids, candidate);
        selected := selected + [candidate];
        ids := ids + {candidate.id};
        queue := queue + [candidate.id];
      }
    }
  }

  /** The starting units by id: the last one of an id stands in the place of the first. */
  method SelectInitial(initial: seq<Unit>) returns (selected: seq<Unit>, queue: seq<Name>)
    ensures Selection(selected, Ids(initial)) && AllLatest(selected, initial)
    ensures forall n :: n in queue <==> n in Ids(initial)
  {
    hide AllLatest, Ids, DistinctIds;
    selected, queue := [], [];
    NothingStarted(initial);
    for i := 0 to |initial|
      invariant Selection(selected, Ids(initial[..i])) && AllLatest(selected, initial[..i])
      invariant forall n :: n in queue <==> n in Ids(initial[..i])
    {
      var unit := initial[i];
      assert initial[..i + 1] == initial[..i] + [unit];
      IdsAppend(initial[..i], unit);
      if j :| 0 <= j < |selected| && selected[j].id == unit.id {
        ReplaceInPlace(selected, j, unit);
        LatestReplaced(selected, initial[..i], j, unit);
        selected := selected[j := unit];
      } else {
        NotSelected(selected, unit);
        SelectionStep(selected, Ids(selected), unit);
        LatestAppended(selected, initial[..i], unit);
        selected := selected + [unit];
      }
      queue := queue + [unit.id];
    }
    assert initial[..|initial|] == initial;
  }

  ghost predicate AllLatest(selected: seq<Unit>, initial: seq<Unit>) {
    forall k :: 0 <= k < |selected| ==> Latest(initial, selected[k])
  }

  lemma NothingStarted(initial: seq<Unit>)
    ensures Selection([], Ids(initial[..0])) && AllLatest([], initial[..0]) && Ids(initial[..0]) == {}
  {
  }

  lemma IdsAppend(units: seq<Unit>, u: Unit)
    ensures Ids(units + [u]) == Ids(units) + {u.id}
  {
    assert forall x :: x in units + [u] <==> x in units || x == u;
  }

  lemma NotSelected(selected: seq<Unit>, u: Unit)
    requires forall j :: 0 <= j < |selected| ==> selected[j].id != u.id
    ensures u.id !in Ids(selected)
  {
  }

  lemma LatestKept(initial: seq<Unit>, x: Unit, u: Unit)
    requires Latest(initial, x) && x.id != u.id
    ensures Latest(initial + [u], x)
  {
    var i :| 0 <= i < |initial| && initial[i] == x && forall j :: i < j < |initial| ==> initial[j].id != x.id;
    assert (initial + [u])[i] == x;
  }

  lemma LatestLast(initial: seq<Unit>, u: Unit)
    ensures Latest(initial + [u], u)
  {
    assert (initial + [u])[|initial|] == u;
  }

  lemma LatestReplaced(selected: seq<Unit>, initial: seq<Unit>, r: nat, u: Unit)
    requires AllLatest(selected, initial) && DistinctIds(selected) && r < |selected| && selected[r].id == u.id
    ensures AllLatest(selected[r := u], initial + [u])
  {
    hide Latest;
    LatestLast(initial, u);
    forall k | 0 <= k < |selected| && k != r ensures Latest(initial + [u], selected[k]) {
      LatestKept(initial, selected[k], u);
    }
  }

  lemma LatestAppended(selected: seq<Unit>, initial: seq<Unit>, u: Unit)
    requires AllLatest(selected, initial) && forall j :: 0 <= j < |selected| ==> selected[j].id != u.id
    ensures AllLatest(selected + [u], initial + [u])
  {
    hide Latest;
    LatestLast(initial, u);
    forall k | 0 <= k < |selected| ensures Latest(initial + [u], selected[k]) { LatestKept(initial, selected[k], u); }
  }

  lemma ReplaceInPlace(selected: seq<Unit>, j: nat, u: Unit)
    requires DistinctIds(selected) && j < |selected| && selected[j].id == u.id
    ensures DistinctIds(selected[j := u]) && Ids(selected[j := u]) == Ids(selected) && u.id in Ids(selected)
  {
    var after := selected[j := u];
    assert forall i :: 0 <= i < |selected| ==> after[i].id == selected[i].id;
    forall n ensures n in Ids(after) <==> n in Ids(selected) {
      if n in Ids(after) {
        var i :| 0 <= i < |after| && after[i].id == n;
        assert selected[i] in selected;
      }
      if n in Ids(selected) {
        var i :| 0 <= i < |selected| && selected[i].id == n;
        assert after[i] in after;
      }
    }
  }

  /** The worklist: terminates on every graph and selects the least closed set, each unit once. */
  method Closure(initial: seq<Unit>, ghost known: set<Name>, dependents: Name -> seq<Unit>)
    returns (selected: seq<Unit>)
    requires Within(dependents, known)
    ensures DistinctIds(selected)
    ensures LeastClosed(Ids(selected), Ids(initial), dependents)
    ensures Sourced(selected, Ids(selected), initial, dependents)
  {
    hide *;
    var queue;
    selected, queue := SelectInitial(initial);
    var ids := set i | 0 <= i < |selected| :: selected[i].id;
    ghost var start, universe := Ids(initial), Ids(initial) + known;
    StartState(selected, ids, queue, initial, dependents);
    while queue != []
      invariant Selection(selected, ids) && Forced(ids, start, dependents) && Handled(ids, queue, dependents)
      invariant Sourced(selected, ids, initial, dependents)
      invariant start <= ids <= universe
      invariant forall n :: n in queue ==> n in ids
      decreases |universe - ids|, |queue|
    {
      var current := queue[0];
      Dequeue(ids, queue, dependents);
      queue := queue[1..];
      if current.text != "" {
        ghost var before := ids;
        DependentsWithin(dependents, known, current);
        selected, ids, queue :=
          VisitDependents(current, dependents(current), selected, ids, queue, initial, dependents);
        if ids != before { Shrinks(universe, before, ids); }
      }
    }
    AllHandled(selected, ids, start, dependents);
  }

  lemma StartState(selected: seq<Unit>, ids: set<Name>, queue: seq<Name>, initial: seq<Unit>,
                   dependents: Name -> seq<Unit>)
    requires Selection(selected, Ids(initial)) && ids == (set i | 0 <= i < |selected| :: selected[i].id)
    requires AllLatest(selected, initial)
    requires forall n :: n in queue <==> n in Ids(initial)
    ensures Selection(selected, ids) && ids == Ids(initial) && Handled(ids, queue, dependents)
            && Forced(ids, Ids(initial), dependents)
    ensures Sourced(selected, ids, initial, dependents)
  {
    assert ids == Ids(selected);
  }

  lemma Dequeue(ids: set<Name>, queue: seq<Name>, dependents: Name -> seq<Unit>)
    requires queue != [] && Handled(ids, queue, dependents)
    ensures forall n, u :: n in ids && n !in queue[1..] && n != queue[0] && n.text != "" && u in dependents(n) ==>
              u.id in ids
    ensures queue[0].text == "" ==> Handled(ids, queue[1..], dependents)
    ensures forall n :: n in queue <==> n == queue[0] || n in queue[1..]
  {
    assert forall n :: n in queue <==> n == queue[0] || n in queue[1..];
  }

  lemma AllHandled(selected: seq<Unit>, ids: set<Name>, initial: set<Name>, dependents: Name -> seq<Unit>)
    requires Selection(selected, ids) && Handled(ids, [], dependents) && Forced(ids, initial, dependents)
             && initial <= ids
    ensures DistinctIds(selected) && LeastClosed(Ids(selected), initial, dependents) && Ids(selected) == ids
  {
  }

  lemma DependentsWithin(dependents: Name -> seq<Unit>, known: set<Name>, n: Name)
    requires Within(dependents, known)
    ensures Ids(dependents(n)) <= known
  {
  }

  lemma Shrinks(universe: set<Name>, a: set<Name>, b: set<Name>)
    requires a < b <= universe
    ensures |universe - b| < |universe - a|
  {
    var x :| x in b && x !in a;
    assert universe - b <= (universe - a) - {x};
    SubsetSize(universe - b, (universe - a) - {x});
  }

  // ---------------------------------------------------------------- workspace packages

  /** dependsOnWorkspace: some scope names the dependency, by a workspace version or as a known workspace. */
  predicate DependsOn(scopes: seq<map<Name, string>>, dependency: Name, workspaces: set<Name>) {
    exists i :: 0 <= i < |scopes| && dependency in scopes[i] && scopes[i][dependency] != ""
                && (StartsWith(scopes[i][dependency], "workspace:") || dependency in workspaces)
  }

  function Filter(packages: seq<Unit>, dependency: Name, workspaces: set<Name>): (r: seq<Unit>)
    ensures forall u :: u in r <==> u in packages && DependsOn(u.scopes, dependency, workspaces)
  {
    if packages == [] then []
    else
      var rest := Filter(packages[..|packages| - 1], dependency, workspaces);
      var last := packages[|packages| - 1];
      assert forall u :: u in packages <==> u in packages[..|packages| - 1] || u == last;
      if DependsOn(last.scopes, dependency, workspaces) then rest + [last] else rest
  }

  /** The least set of workspace names that holds the touched ones and every package depending on a member,
      each by the touched unit or workspace package itself. */
  method ExpandWithDependents(touched: seq<Unit>, packages: seq<Unit>, before: (Unit, Unit) -> bool)
    returns (r: seq<Unit>)
    ensures DistinctIds(r)
    ensures LeastClosed(Ids(r), Ids(touched), n => Filter(packages, n, Ids(packages)))
    ensures Sourced(r, Ids(r), touched, n => Filter(packages, n, Ids(packages)))
    ensures forall u :: u in r ==> u in touched || u in packages
    ensures Sorting.Orders(before, Sorting.Elements(r)) ==> Sorting.Sorted(r, before)
  {
    var workspaces := set i | 0 <= i < |packages| :: packages[i].id;
    assert workspaces == Ids(packages);
    var dependents := (n: Name) => Filter(packages, n, workspaces);
    var selected := Closure(touched, workspaces, dependents);
    r := Sorting.Sort(selected, before);
    SortKeepsSelection(selected, before);
    assert dependents == (n => Filter(packages, n, Ids(packages)));
  }

  lemma SortKeepsSelection(selected: seq<Unit>, before: (Unit, Unit) -> bool)
    requires DistinctIds(selected)
    ensures var r := Sorting.Sort(selected, before);
            && DistinctIds(r) && Ids(r) == Ids(selected) && (forall u :: u in r <==> u in selected)
            && (Sorting.Orders(before, Sorting.Elements(r)) ==> Sorting.Sorted(r, before))
  {
    var r := Sorting.Sort(selected, before);
    Sorting.SortPermutes(selected, before);
    Sorting.SameElements(selected, r);
    assert Sorting.Elements(r) == Sorting.Elements(selected);
    if Sorting.Orders(before, Sorting.Elements(r)) { Sorting.SortSorts(selected, before, Sorting.Elements(r)); }
    var key := (u: Unit) => u.id;
    assert Sorting.DistinctKeys(selected, key);
    Sorting.DistinctKeysPermute(selected, r, key);
    assert forall i, j :: 0 <= i < j < |r| ==> key(r[i]) != key(r[j]);
  }

  // ---------------------------------------------------------------- Cargo units

  /** The dependents recorded for a unit, as far as their package ids are known. */
  function Recorded(packageIds: seq<Name>, byPackageId: map<Name, Unit>): (r: seq<Unit>)
    ensures forall u :: u in r <==> exists p :: p in packageIds && p in byPackageId && byPackageId[p] == u
  {
    if packageIds == [] then []
    else
      var rest := Recorded(packageIds[..|packageIds| - 1], byPackageId);
      var last := packageIds[|packageIds| - 1];
      assert forall p :: p in packageIds <==> p in packageIds[..|packageIds| - 1] || p == last;
      if last in byPackageId then rest + [byPackageId[last]] else rest
  }

  function ReverseDependents(reverse: map<Name, seq<Name>>, byPackageId: map<Name, Unit>, n: Name): seq<Unit> {
    if n in reverse then Recorded(reverse[n], byPackageId) else []
  }

  /** The least set of Cargo unit ids that holds the initial ones and every recorded dependent of a member. */
  method ExpandCargoDependents(initial: seq<Unit>, reverse: map<Name, seq<Name>>, byPackageId: map<Name, Unit>)
    returns (r: seq<Unit>)
    ensures DistinctIds(r)
    ensures LeastClosed(Ids(r), Ids(initial), n => ReverseDependents(reverse, byPackageId, n))
    ensures Sourced(r, Ids(r), initial, n => ReverseDependents(reverse, byPackageId, n))
    ensures forall u :: u in r ==> u in initial || u in byPackageId.Values
  {
    ghost var known := set u | u in byPackageId.Values :: u.id;
    r := Closure(initial, known, n => ReverseDependents(reverse, byPackageId, n));
  }

  // ---------------------------------------------------------------- who depends on whom

  /** A package lists the dependency in one of its tables, with a version that is written "workspace:..." or,
      for a package of the workspace, any version. */
  ghost predicate Lists(u: Unit, dependency: Name, packages: seq<Unit>) {
    exists table :: table in u.scopes && dependency in table && table[dependency] != ""
                    && ((|table[dependency]| >= 10 && table[dependency][..10] == "workspace:")
                        || exists p :: p in packages && p.id == dependency)
  }

  lemma PrefixIs(version: string)
    ensures StartsWith(version, "workspace:") <==> |version| >= 10 && version[..10] == "workspace:"
  {
  }

  /** The dependents of a name are exactly the packages that list it. */
  lemma DependentsAreListed(packages: seq<Unit>, n: Name, u: Unit)
    ensures u in Filter(packages, n, Ids(packages)) <==> u in packages && Lists(u, n, packages)
  {
    hide StartsWith;
    assert n in Ids(packages) <==> exists p :: p in packages && p.id == n;
    if DependsOn(u.scopes, n, Ids(packages)) {
      var i :| 0 <= i < |u.scopes| && n in u.scopes[i] && u.scopes[i][n] != ""
               && (StartsWith(u.scopes[i][n], "workspace:") || n in Ids(packages));
      PrefixIs(u.scopes[i][n]);
      assert u.scopes[i] in u.scopes;
    }
    if Lists(u, n, packages) {
      var table :| table in u.scopes && n in table && table[n] != ""
                   && ((|table[n]| >= 10 && table[n][..10] == "workspace:") || exists p :: p in packages && p.id == n);
      PrefixIs(table[n]);
      var i :| 0 <= i < |u.scopes| && u.scopes[i] == table;
    }
  }

  /** The recorded dependents of a Cargo unit are exactly the units of the package ids recorded for it. */
  lemma RecordedDependents(reverse: map<Name, seq<Name>>, byPackageId: map<Name, Unit>, n: Name, u: Unit)
    ensures u in ReverseDependents(reverse, byPackageId, n) <==>
              n in reverse && exists p :: p in reverse[n] && p in byPackageId && byPackageId[p] == u
  {
  }
}

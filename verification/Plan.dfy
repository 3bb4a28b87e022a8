/** Publication planning: match the evidence records to the declared packages, check their internal
    dependencies and order them. */
module Plan {
  import opened Common
  import opened Evidence
  import Kahn
  import Sorting

  datatype PlanError =
    | BadConfiguration | DuplicateRecord | NoDefinition | DuplicateDeclaration | MissingRecord | WrongDir
    | UnexpectedRecords | NoRecords | MixedVersions | InexactDependencies | AbsentDependency | Cycle(names: seq<Name>)

  /** The definition stored under a directory; a later table row replaces an earlier one. */
  function ByDir(definitions: seq<Definition>, dir: string): Option<Definition> {
    if definitions == [] then None
    else if definitions[|definitions| - 1].dir == dir then Some(definitions[|definitions| - 1])
    else ByDir(definitions[..|definitions| - 1], dir)
  }

  function Dirs(definitions: seq<Definition>): seq<string> {
    seq(|definitions|, i requires 0 <= i < |definitions| => definitions[i].dir)
  }

  ghost predicate DistinctNames(records: seq<PackageRecord>) {
    forall i, j :: 0 <= i < j < |records| ==> records[i].name != records[j].name
  }

  /** `byName` files every record under its own name. */
  ghost predicate Indexes(byName: map<Name, PackageRecord>, records: seq<PackageRecord>) {
    && (forall i :: 0 <= i < |records| ==> records[i].name in byName && byName[records[i].name] == records[i])
    && (forall n :: n in byName ==> byName[n] in records && byName[n].name == n)
  }

  /** The record of a declared directory. */
  predicate DeclaredAs(c: Config, dir: string, record: PackageRecord) {
    record.dir == dir && ByDir(c.definitions, dir).Some? && ByDir(c.definitions, dir).value.name == record.name
  }

  /** `declared` lists the record of every declared directory, in declaration order. */
  ghost predicate Declares(c: Config, packages: seq<string>, records: seq<PackageRecord>,
                           declared: seq<PackageRecord>) {
    && |declared| == |packages| && DistinctNames(declared)
    && forall i :: 0 <= i < |packages| ==> declared[i] in records && DeclaredAs(c, packages[i], declared[i])
  }

  /** The evidence holds one record for every declared package and no other. */
  ghost predicate Matches(c: Config, packages: seq<string>, records: seq<PackageRecord>, declared: seq<PackageRecord>) {
    && DistinctNames(records) && Declares(c, packages, records, declared)
    && forall r :: r in records ==> r in declared
  }

  /** The first `i` declared directories have their records, and the next one fails with this error. */
  ghost predicate StuckAt(c: Config, packages: seq<string>, records: seq<PackageRecord>, i: nat,
                          declared: seq<PackageRecord>, error: PlanError)
  {
    && i < |packages| && Declares(c, packages[..i], records, declared)
    && var definition := ByDir(c.definitions, packages[i]);
       if definition == None then error == NoDefinition
       else if definition.value.name in NamesOf(declared) then error == DuplicateDeclaration
       else if definition.value.name !in NamesOf(records) then error == MissingRecord
       else error == WrongDir && exists r :: r in records && r.name == definition.value.name && r.dir != packages[i]
  }

  /** Why records and declarations do not match: a repeated record, the first directory that fails, or a
      record left over. */
  ghost predicate MatchError(c: Config, packages: seq<string>, records: seq<PackageRecord>, error: PlanError) {
    if !DistinctNames(records) then error == DuplicateRecord
    else
      || (exists i, declared :: StuckAt(c, packages, records, i, declared, error))
      || (error == UnexpectedRecords
          && exists declared, r :: Declares(c, packages, records, declared) && r in records && r !in declared)
  }

  method IndexRecords(records: seq<PackageRecord>) returns (r: Option<map<Name, PackageRecord>>)
    ensures r.Some? <==> DistinctNames(records)
    ensures r.Some? ==> Indexes(r.value, records)
  {
    var byName: map<Name, PackageRecord> := map[];
    for i := 0 to |records|
      invariant DistinctNames(records[..i]) && Indexes(byName, records[..i])
    {
      var record := records[i];
      assert records[..i + 1] == records[..i] + [record];
      if record.name in byName {
        var other := byName[record.name];
        var j :| 0 <= j < i && records[..i][j] == other;
        assert records[j].name == records[i].name;
        return None;
      }
      byName := byName[record.name := record];
    }
    assert records[..|records|] == records;
    r := Some(byName);
  }

  lemma DeclaredUnique(c: Config, packages: seq<string>, records: seq<PackageRecord>, a: seq<PackageRecord>,
                       b: seq<PackageRecord>)
    requires DistinctNames(records) && Declares(c, packages, records, a) && Declares(c, packages, records, b)
    ensures a == b
  {
    forall i | 0 <= i < |a| ensures a[i] == b[i] {
      assert a[i].name == b[i].name;
      var j :| 0 <= j < |records| && records[j] == a[i];
      var k :| 0 <= k < |records| && records[k] == b[i];
    }
  }

  /** Records with distinct names and equal names are equal. */
  lemma SameRecord(records: seq<PackageRecord>, x: PackageRecord, y: PackageRecord)
    requires DistinctNames(records) && x in records && y in records && x.name == y.name
    ensures x == y
  {
  }

  lemma Indexed(byName: map<Name, PackageRecord>, records: seq<PackageRecord>, n: Name)
    requires Indexes(byName, records)
    ensures n in byName <==> n in NamesOf(records)
    ensures n in byName ==> byName[n] in records && byName[n].name == n
  {
    if n in byName {
      var i :| 0 <= i < |records| && records[i] == byName[n];
      assert NamesOf(records)[i] == n;
    }
    if n in NamesOf(records) {
      var i :| 0 <= i < |records| && NamesOf(records)[i] == n;
      assert records[i].name in byName;
    }
  }

  /** The lookup of one declared directory. */
  method MatchOne(c: Config, packages: seq<string>, i: nat, byName: map<Name, PackageRecord>, declaredNames: set<Name>,
                  ghost records: seq<PackageRecord>, ghost declared: seq<PackageRecord>)
    returns (r: Result<PackageRecord, PlanError>)
    requires Indexes(byName, records) && i < |packages| && Declares(c, packages[..i], records, declared)
    requires declaredNames == set n | n in NamesOf(declared)
    ensures r.Ok? ==> r.value in records && DeclaredAs(c, packages[i], r.value) && r.value.name !in NamesOf(declared)
    ensures r.Err? ==> StuckAt(c, packages, records, i, declared, r.error)
  {
    hide Indexes, Declares, ByDir;
    var definition := ByDir(c.definitions, packages[i]);
    if definition == None { return Err(NoDefinition); }
    var name := definition.value.name;
    if name in declaredNames { return Err(DuplicateDeclaration); }
    Indexed(byName, records, name);
    if name !in byName { return Err(MissingRecord); }
    var record := byName[name];
    if record.dir != packages[i] { return Err(WrongDir); }
    r := Ok(record);
  }

  /** A directory that fails rules out every match. */
  lemma StuckMeansNoMatch(c: Config, packages: seq<string>, records: seq<PackageRecord>, i: nat,
                          declared: seq<PackageRecord>, error: PlanError, other: seq<PackageRecord>)
    requires DistinctNames(records) && StuckAt(c, packages, records, i, declared, error)
    ensures !Matches(c, packages, records, other)
  {
    if Matches(c, packages, records, other) { MatchGoesOn(c, packages, records, i, declared, other); }
  }

  /** A match has the record of every directory, and no earlier directory has its name. */
  lemma MatchGoesOn(c: Config, packages: seq<string>, records: seq<PackageRecord>, i: nat, declared: seq<PackageRecord>,
                    other: seq<PackageRecord>)
    requires i < |packages| && Declares(c, packages[..i], records, declared) && Matches(c, packages, records, other)
    ensures DeclaredAs(c, packages[i], other[i])
    ensures other[i].name !in NamesOf(declared) && other[i].name in NamesOf(records)
    ensures forall r :: r in records && r.name == other[i].name ==> r == other[i]
  {
    hide ByDir;
    var x := other[i];
    assert Declares(c, packages[..i], records, other[..i]);
    DeclaredUnique(c, packages[..i], records, declared, other[..i]);
    assert forall j :: 0 <= j < i ==> NamesOf(declared)[j] == other[j].name;
    assert x in records && DeclaredAs(c, packages[i], x);
    NamedIfIn(records, x);
    forall r | r in records && r.name == x.name ensures r == x { SameRecord(records, r, x); }
  }

  lemma NamedIfIn(records: seq<PackageRecord>, r: PackageRecord)
    ensures r in records ==> r.name in NamesOf(records)
  {
    if r in records {
      var k :| 0 <= k < |records| && records[k] == r;
      assert NamesOf(records)[k] == r.name;
    }
  }

  /** Matching fails exactly when no match exists. */
  lemma MatchErrorMeans(c: Config, packages: seq<string>, records: seq<PackageRecord>, error: PlanError,
                        other: seq<PackageRecord>)
    requires MatchError(c, packages, records, error)
    ensures !Matches(c, packages, records, other)
  {
    hide StuckAt, Declares;
    if DistinctNames(records) && Matches(c, packages, records, other) {
      if i, declared :| StuckAt(c, packages, records, i, declared, error) {
        StuckMeansNoMatch(c, packages, records, i, declared, error, other);
      } else {
        var declared, r :| Declares(c, packages, records, declared) && r in records && r !in declared;
        DeclaredUnique(c, packages, records, declared, other);
      }
    }
  }

  method MatchDeclared(c: Config, packages: seq<string>, records: seq<PackageRecord>)
    returns (r: Result<seq<PackageRecord>, PlanError>)
    ensures r.Ok? ==> Matches(c, packages, records, r.value)
    ensures r.Err? ==> MatchError(c, packages, records, r.error)
    ensures r.Err? ==> !exists declared :: Matches(c, packages, records, declared)
  {
    hide Declares, Matches, DeclaredAs, ByDir, DistinctNames, Indexes, StuckAt;
    var indexed := IndexRecords(records);
    if indexed == None {
      forall other { MatchErrorMeans(c, packages, records, DuplicateRecord, other); }
      return Err(DuplicateRecord);
    }
    var byName := indexed.value;
    var declared: seq<PackageRecord> := [];
    var declaredNames: set<Name> := {};
    NothingDeclared(c, packages[..0], records);
    for i := 0 to |packages|
      invariant Declares(c, packages[..i], records, declared)
      invariant declaredNames == set n | n in NamesOf(declared)
    {
      var record := MatchOne(c, packages, i, byName, declaredNames, records, declared);
      if record.Err? {
        forall other { MatchErrorMeans(c, packages, records, record.error, other); }
        return Err(record.error);
      }
      DeclareOne(c, packages, records, declared, i, record.value);
      NamesAppend(declared, record.value);
      declared := declared + [record.value];
      declaredNames := declaredNames + {record.value.name};
    }
    assert packages[..|packages|] == packages;
    if n :| n in byName && n !in declaredNames {
      LeftOver(c, packages, records, declared, byName, n);
      forall other { MatchErrorMeans(c, packages, records, UnexpectedRecords, other); }
      return Err(UnexpectedRecords);
    }
    AllDeclared(c, packages, records, declared, byName);
    r := Ok(declared);
  }

  lemma NamesAppend(declared: seq<PackageRecord>, record: PackageRecord)
    ensures forall n :: n in NamesOf(declared + [record]) <==> n in NamesOf(declared) || n == record.name
  {
    assert NamesOf(declared + [record]) == NamesOf(declared) + [record.name];
  }

  lemma LeftOver(c: Config, packages: seq<string>, records: seq<PackageRecord>, declared: seq<PackageRecord>,
                 byName: map<Name, PackageRecord>, n: Name)
    requires DistinctNames(records) && Indexes(byName, records) && Declares(c, packages, records, declared)
    requires n in byName && n !in NamesOf(declared)
    ensures MatchError(c, packages, records, UnexpectedRecords)
  {
    hide Declares, DistinctNames, StuckAt;
    var r := byName[n];
    NamedIfIn(declared, r);
  }

  lemma NothingDeclared(c: Config, none: seq<string>, records: seq<PackageRecord>)
    requires none == []
    ensures Declares(c, none, records, [])
  {
  }

  lemma DeclareOne(c: Config, packages: seq<string>, records: seq<PackageRecord>, declared: seq<PackageRecord>, i: nat,
                   record: PackageRecord)
    requires i < |packages| && Declares(c, packages[..i], records, declared)
    requires record in records && DeclaredAs(c, packages[i], record) && record.name !in NamesOf(declared)
    ensures Declares(c, packages[..i + 1], records, declared + [record])
  {
    hide DeclaredAs;
    var more, dirs := declared + [record], packages[..i + 1];
    forall j | 0 <= j < |declared| ensures declared[j].name != record.name {
      assert NamesOf(declared)[j] == declared[j].name;
    }
    forall j | 0 <= j < |dirs| ensures more[j] in records && DeclaredAs(c, dirs[j], more[j]) {
      if j < i { assert more[j] == declared[j] && dirs[j] == packages[..i][j]; }
    }
  }

  lemma AllDeclared(c: Config, packages: seq<string>, records: seq<PackageRecord>, declared: seq<PackageRecord>,
                    byName: map<Name, PackageRecord>)
    requires DistinctNames(records) && Indexes(byName, records) && Declares(c, packages, records, declared)
    requires forall n :: n in byName ==> n in NamesOf(declared)
    ensures Matches(c, packages, records, declared)
  {
    forall x | x in records ensures x in declared {
      var i :| 0 <= i < |records| && records[i] == x;
      assert x.name in byName;
      var j :| 0 <= j < |declared| && NamesOf(declared)[j] == x.name;
      var k :| 0 <= k < |records| && records[k] == declared[j];
    }
  }

  // ---------------------------------------------------------------- dependencies and order

  function GraphOf(declared: seq<PackageRecord>): (g: Kahn.Graph)
    ensures forall n :: n in g <==> n in NamesOf(declared)
  {
    if declared == [] then map[]
    else
      var last := declared[|declared| - 1];
      assert forall n :: n in NamesOf(declared) <==> n in NamesOf(declared[..|declared| - 1]) || n == last.name;
      GraphOf(declared[..|declared| - 1])[last.name := last.internalDependencies.Keys]
  }

  lemma {:induction false} GraphEntries(declared: seq<PackageRecord>, i: nat)
    requires DistinctNames(declared) && i < |declared|
    ensures declared[i].name in GraphOf(declared)
            && GraphOf(declared)[declared[i].name] == declared[i].internalDependencies.Keys
  {
    var n := |declared| - 1;
    assert NamesOf(declared)[i] == declared[i].name;
    if i < n { GraphEntries(declared[..n], i); }
  }

  /** Record i pins its dependencies to the release version, and they are all declared. */
  ghost predicate Pinned(c: Config, declared: seq<PackageRecord>, i: nat)
    requires i < |declared|
  {
    && ExactDependencies(c, declared[i].internalDependencies, declared[0].version)
    && forall d :: d in declared[i].internalDependencies ==> d in NamesOf(declared)
  }

  /** One stable release version, and dependencies pinned to it inside the evidence. */
  ghost predicate Consistent(c: Config, declared: seq<PackageRecord>) {
    && declared != []
    && (forall i :: 0 <= i < |declared| ==> declared[i].version == declared[0].version)
    && (forall i :: 0 <= i < |declared| ==> Pinned(c, declared, i))
  }

  /** Why the declared records are not consistent: none at all, two versions, or the first record whose
      dependencies are not pinned, and then not present. */
  ghost predicate DependencyError(c: Config, declared: seq<PackageRecord>, error: PlanError) {
    if declared == [] then error == NoRecords
    else if exists i :: 0 <= i < |declared| && declared[i].version != declared[0].version then error == MixedVersions
    else
      exists i :: 0 <= i < |declared| && !Pinned(c, declared, i) && (forall j :: 0 <= j < i ==> Pinned(c, declared, j))
                  && error == if ExactDependencies(c, declared[i].internalDependencies, declared[0].version)
                              then AbsentDependency else InexactDependencies
  }

  method CheckDependencies(c: Config, declared: seq<PackageRecord>) returns (r: Option<PlanError>)
    ensures r == None <==> Consistent(c, declared)
    ensures r.Some? ==> DependencyError(c, declared, r.value)
  {
    hide ExactDependencies;
    if declared == [] { return Some(NoRecords); }
    var releaseVersion := declared[0].version;
    if exists i :: 0 <= i < |declared| && declared[i].version != releaseVersion { return Some(MixedVersions); }
    for i := 0 to |declared|
      invariant forall j :: 0 <= j < i ==> Pinned(c, declared, j)
    {
      var dependencies := declared[i].internalDependencies;
      if !ExactDependencies(c, dependencies, releaseVersion) {
        assert !Pinned(c, declared, i);
        return Some(InexactDependencies);
      }
      if exists d :: d in dependencies.Keys && d !in NamesOf(declared) {
        assert !Pinned(c, declared, i);
        return Some(AbsentDependency);
      }
    }
    r := None;
  }

  lemma GraphWellFormed(c: Config, declared: seq<PackageRecord>)
    requires DistinctNames(declared) && Consistent(c, declared)
    ensures Kahn.WellFormed(NamesOf(declared), GraphOf(declared))
  {
    var nodes, g := NamesOf(declared), GraphOf(declared);
    assert g.Keys == Sorting.Elements(nodes);
    forall n | n in g ensures g[n] <= g.Keys {
      var i :| 0 <= i < |nodes| && nodes[i] == n;
      GraphEntries(declared, i);
      assert Pinned(c, declared, i);
    }
  }

  /** What may be published at all: a configuration matching the table, and consistent matching evidence. */
  ghost predicate Plannable(c: Config, packages: seq<string>, records: seq<PackageRecord>,
                            declared: seq<PackageRecord>) {
    multiset(packages) == multiset(Dirs(c.definitions)) && Matches(c, packages, records, declared)
        && Consistent(c, declared)
  }

  /** The publication order of the declared records: every record once, dependencies first, and among all
      such orders the one that takes the earlier declared package at the first difference. */
  ghost predicate PublicationOrder(order: seq<PackageRecord>, declared: seq<PackageRecord>) {
    && |order| == |declared| && (forall r :: r in order <==> r in declared)
    && Kahn.IsTopological(NamesOf(order), NamesOf(declared), GraphOf(declared))
    && Kahn.LeastOrder(NamesOf(order), NamesOf(declared), GraphOf(declared))
  }

  ghost predicate Cyclic(declared: seq<PackageRecord>) {
    exists cycle :: Kahn.IsCycle(cycle, GraphOf(declared))
  }

  /** The names in a cycle error: the largest set of declared packages that no order can place, in
      declaration order. */
  ghost predicate Blocks(names: seq<Name>, declared: seq<PackageRecord>) {
    && names != [] && names == Kahn.Chosen(NamesOf(declared), Sorting.Elements(names))
    && Kahn.Deadlocked(Sorting.Elements(names), GraphOf(declared))
    && forall s :: Kahn.Deadlocked(s, GraphOf(declared)) ==> s <= Sorting.Elements(names)
  }

  /** Why there is no plan: the first of the planner's checks that fails, with its error. */
  ghost predicate PlanFailure(c: Config, packages: seq<string>, records: seq<PackageRecord>, error: PlanError) {
    if multiset(packages) != multiset(Dirs(c.definitions)) then error == BadConfiguration
    else
      || MatchError(c, packages, records, error)
      || exists declared :: Matches(c, packages, records, declared)
                            && (DependencyError(c, declared, error)
                                || (Consistent(c, declared) && Cyclic(declared) && error.Cycle?
                                    && Blocks(error.names, declared)))
  }

  method Arrange(names: seq<Name>, declared: seq<PackageRecord>) returns (order: seq<PackageRecord>)
    requires DistinctNames(declared) && Sorting.Elements(names) == Sorting.Elements(NamesOf(declared))
    ensures NamesOf(order) == names && forall r :: r in order <==> r in declared
  {
    hide Indexes, DistinctNames;
    var indexed := IndexRecords(declared);
    var byName := indexed.value;
    order := [];
    for i := 0 to |names|
      invariant |order| == i
      invariant forall j :: 0 <= j < i ==>
                  names[j] in byName && order[j] == byName[names[j]] && order[j].name == names[j]
    {
      assert names[i] in Sorting.Elements(NamesOf(declared));
      Indexed(byName, declared, names[i]);
      order := order + [byName[names[i]]];
    }
    ArrangedAll(byName, names, declared, order);
  }

  lemma ArrangedAll(byName: map<Name, PackageRecord>, names: seq<Name>, declared: seq<PackageRecord>,
                    order: seq<PackageRecord>)
    requires Indexes(byName, declared) && |order| == |names|
             && Sorting.Elements(names) == Sorting.Elements(NamesOf(declared))
    requires forall j :: 0 <= j < |names| ==> names[j] in byName && order[j] == byName[names[j]]
    ensures forall r :: r in order <==> r in declared
  {
    forall r ensures r in order <==> r in declared {
      NamedIfIn(declared, r);
      if r in declared {
        assert r.name in Sorting.Elements(NamesOf(declared));
        var i :| 0 <= i < |names| && names[i] == r.name;
        assert order[i] == r;
      }
    }
  }

  method PlanExpectedEvidencePublication(c: Config, packages: seq<string>, records: seq<PackageRecord>)
    returns (r: Result<seq<PackageRecord>, PlanError>)
    ensures r.Ok? ==> exists declared ::
              Plannable(c, packages, records, declared) && PublicationOrder(r.value, declared)
    ensures r.Err? ==> PlanFailure(c, packages, records, r.error)
    ensures r.Err? && r.error.Cycle? ==>
              exists declared ::
                  Plannable(c, packages, records, declared) && Cyclic(declared) && Blocks(r.error.names, declared)
    ensures r.Err? && !r.error.Cycle? ==> !exists declared :: Plannable(c, packages, records, declared)
    ensures forall declared :: Plannable(c, packages, records, declared) ==>
              (r.Ok? <==> !Cyclic(declared))
  {
    hide Consistent, PublicationOrder, Kahn.IsCycle, Kahn.Deadlocked, Declares, DistinctNames, MatchError,
      DependencyError;
    if multiset(packages) != multiset(Dirs(c.definitions)) { return Err(BadConfiguration); }
    var matched := MatchDeclared(c, packages, records);
    if matched.Err? {
      MatchErrorKind(c, packages, records, matched.error);
      return Err(matched.error);
    }
    var declared := matched.value;
    forall other | Plannable(c, packages, records, other) ensures other == declared {
      DeclaredUnique(c, packages, records, other, declared);
    }
    var problem := CheckDependencies(c, declared);
    if problem.Some? {
      assert !problem.value.Cycle? by { DependencyErrorKind(c, declared, problem.value); }
      return Err(problem.value);
    }
    assert Plannable(c, packages, records, declared);
    DeclaredDistinct(c, packages, records, declared);
    GraphWellFormed(c, declared);
    var order := Kahn.Order(NamesOf(declared), GraphOf(declared));
    assert order.Ok? <==> !Cyclic(declared);
    if order.Err? { return Err(Cycle(order.error)); }
    IsPermutation(order.value, declared);
    var arranged := Arrange(order.value, declared);
    ArrangedOrder(arranged, order.value, declared);
    r := Ok(arranged);
  }

  lemma MatchErrorKind(c: Config, packages: seq<string>, records: seq<PackageRecord>, error: PlanError)
    requires MatchError(c, packages, records, error)
    ensures !error.Cycle?
  {
    hide Declares, ByDir;
  }

  lemma DependencyErrorKind(c: Config, declared: seq<PackageRecord>, error: PlanError)
    requires DependencyError(c, declared, error)
    ensures !error.Cycle?
  {
    hide ExactDependencies, Pinned;
  }

  lemma DeclaredDistinct(c: Config, packages: seq<string>, records: seq<PackageRecord>, declared: seq<PackageRecord>)
    requires Declares(c, packages, records, declared)
    ensures DistinctNames(declared)
  {
  }

  lemma IsPermutation(names: seq<Name>, declared: seq<PackageRecord>)
    requires Kahn.IsTopological(names, NamesOf(declared), GraphOf(declared))
    ensures Sorting.Elements(names) == Sorting.Elements(NamesOf(declared)) && |names| == |declared|
  {
  }

  lemma ArrangedOrder(order: seq<PackageRecord>, names: seq<Name>, declared: seq<PackageRecord>)
    requires NamesOf(order) == names && |names| == |declared| && forall r :: r in order <==> r in declared
    requires Kahn.IsTopological(names, NamesOf(declared), GraphOf(declared))
    requires Kahn.LeastOrder(names, NamesOf(declared), GraphOf(declared))
    ensures PublicationOrder(order, declared)
  {
  }

  /** The table row for a directory is the last one with that directory. */
  lemma {:induction false} ByDirMeans(definitions: seq<Definition>, dir: string)
    ensures ByDir(definitions, dir) == None <==> forall i :: 0 <= i < |definitions| ==> definitions[i].dir != dir
    ensures ByDir(definitions, dir).Some? ==>
              exists i :: 0 <= i < |definitions| && definitions[i] == ByDir(definitions, dir).value
                          && definitions[i].dir == dir && forall j :: i < j < |definitions| ==>
                              definitions[j].dir != dir
  {
    if definitions != [] {
      var n := |definitions| - 1;
      var init := definitions[..n];
      ByDirMeans(init, dir);
      assert forall i :: 0 <= i < n ==> init[i] == definitions[i];
      if definitions[n].dir != dir && ByDir(definitions, dir).Some? {
        var i :| 0 <= i < n && init[i] == ByDir(definitions, dir).value && init[i].dir == dir
                 && forall j :: i < j < n ==> init[j].dir != dir;
        assert definitions[i] == ByDir(definitions, dir).value;
      }
    }
  }
}

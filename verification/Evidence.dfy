/** Expected and final release evidence. JSON documents are typed records here; maps carry no key order. */
module Evidence {
  import opened Common
  import Versions

  const SCHEMA_VERSION := 1

  datatype Definition = Definition(dir: string, name: Name)

  /** The public package table, in name order, and the encoding of a SHA-512 as an integrity string. */
  datatype Config = Config(definitions: seq<Definition>, sri: string -> string)

  datatype PackageRecord = PackageRecord(
    dir: string, name: Name, version: string, tarballSha512: string, expectedSri: string, manifestSha256: string,
    unpackedSize: int, fileCount: int, internalDependencies: map<Name, string>)

  datatype Expected = Expected(schemaVersion: int, sourceCommit: string, releaseVersion: string,
                               packages: seq<PackageRecord>)

  datatype Registry = Registry(sri: string, tarballSha512: string, manifestSha256: string,
                               internalDependencies: map<Name, string>)
  datatype Observation = Observation(registry: Registry, latestVersion: Option<string>)

  datatype FinalRecord = FinalRecord(base: PackageRecord, registry: Registry)
  datatype Final = Final(schemaVersion: int, sourceCommit: string, releaseVersion: string, expectedSha256: string,
                         packages: seq<FinalRecord>)

  predicate LowerHex(s: string, n: nat) {
    |s| == n && forall i :: 0 <= i < n ==> '0' <= s[i] <= '9' || 'a' <= s[i] <= 'f'
  }

  /** The definition stored under a name; a later table row replaces an earlier one. */
  function Lookup(definitions: seq<Definition>, name: Name): Option<Definition> {
    if definitions == [] then None
    else if definitions[|definitions| - 1].name == name then Some(definitions[|definitions| - 1])
    else Lookup(definitions[..|definitions| - 1], name)
  }

  /** Every internal dependency is a known package pinned to the release version. */
  predicate ExactDependencies(c: Config, dependencies: map<Name, string>, version: string) {
    && Versions.Stable(version)
    && forall n :: n in dependencies ==> Lookup(c.definitions, n).Some? && dependencies[n] == version
  }

  predicate SafeCount(n: int) { 0 <= n <= MAX_SAFE_INTEGER }

  predicate ValidRecord(c: Config, r: PackageRecord) {
    && Lookup(c.definitions, r.name).Some? && Lookup(c.definitions, r.name).value.dir == r.dir
    && Versions.Stable(r.version)
    && LowerHex(r.tarballSha512, 128) && r.expectedSri == c.sri(r.tarballSha512)
    && LowerHex(r.manifestSha256, 64)
    && ExactDependencies(c, r.internalDependencies, r.version)
    && SafeCount(r.unpackedSize) && SafeCount(r.fileCount)
  }

  /** The complete table, in table order. */
  predicate CompleteTable(c: Config, names: seq<Name>) {
    |names| == |c.definitions| && forall i :: 0 <= i < |names| ==> names[i] == c.definitions[i].name
  }

  function NamesOf(packages: seq<PackageRecord>): (names: seq<Name>)
    ensures |names| == |packages|
    ensures forall i :: 0 <= i < |names| ==> names[i] == packages[i].name
  {
    seq(|packages|, i requires 0 <= i < |packages| => packages[i].name)
  }

  function Bases(packages: seq<FinalRecord>): (bases: seq<PackageRecord>)
    ensures |bases| == |packages|
    ensures forall i :: 0 <= i < |bases| ==> bases[i] == packages[i].base
  {
    seq(|packages|, i requires 0 <= i < |packages| => packages[i].base)
  }

  predicate ValidPackages(c: Config, packages: seq<PackageRecord>, version: string) {
    && (forall i :: 0 <= i < |packages| ==> ValidRecord(c, packages[i]))
    && CompleteTable(c, NamesOf(packages))
    && forall i :: 0 <= i < |packages| ==> packages[i].version == version
  }

  predicate ValidExpected(c: Config, e: Expected) {
    && e.schemaVersion == SCHEMA_VERSION && LowerHex(e.sourceCommit, 40) && Versions.Stable(e.releaseVersion)
    && ValidPackages(c, e.packages, e.releaseVersion)
  }

  predicate ValidRegistry(c: Config, r: Registry, version: string) {
    && LowerHex(r.tarballSha512, 128) && r.sri == c.sri(r.tarballSha512)
    && LowerHex(r.manifestSha256, 64)
    && ExactDependencies(c, r.internalDependencies, version)
  }

  predicate ValidFinal(c: Config, f: Final) {
    && f.schemaVersion == SCHEMA_VERSION && LowerHex(f.sourceCommit, 40) && Versions.Stable(f.releaseVersion)
    && LowerHex(f.expectedSha256, 64)
    && ValidPackages(c, Bases(f.packages), f.releaseVersion)
    && forall i :: 0 <= i < |f.packages| ==> ValidRegistry(c, f.packages[i].registry, f.packages[i].base.version)
  }

  /** The registry holds the expected tarball, its integrity text, its manifest and its dependencies. */
  predicate SameEvidence(expected: PackageRecord, r: Registry) {
    && r.tarballSha512 == expected.tarballSha512 && r.sri == expected.expectedSri
    && r.manifestSha256 == expected.manifestSha256 && r.internalDependencies == expected.internalDependencies
  }

  datatype Classification = Publish | Skip | Conflict

  function Classify(expected: PackageRecord, observation: Option<Observation>): (r: Classification)
    ensures r == Publish <==> observation == None
    ensures r == Skip <==> observation.Some? && observation.value.registry == RegistryOf(expected)
    ensures r == Skip <==> observation.Some? && SameEvidence(expected, observation.value.registry)
  {
    match observation
    case None => Publish
    case Some(o) =>
      if o.registry.sri == expected.expectedSri && o.registry.tarballSha512 == expected.tarballSha512
         && o.registry.manifestSha256 == expected.manifestSha256
         && o.registry.internalDependencies == expected.internalDependencies then Skip
      else Conflict
  }

  /** What the registry must hold for a record. */
  function RegistryOf(r: PackageRecord): Registry {
    Registry(r.expectedSri, r.tarballSha512, r.manifestSha256, r.internalDependencies)
  }

  /** The one final document that expected evidence and its digest allow. */
  function TheFinal(e: Expected, digest: string): Final {
    Final(SCHEMA_VERSION, e.sourceCommit, e.releaseVersion, digest,
          seq(|e.packages|, i requires 0 <= i < |e.packages| => FinalRecord(e.packages[i], RegistryOf(e.packages[i]))))
  }

  datatype EvidenceError =
    | InvalidExpected | InvalidDigest | MissingObservation | ConflictingObservation | UnknownObservation | InvalidFinal

  lemma TheFinalIsValid(c: Config, e: Expected, digest: string)
    requires ValidExpected(c, e) && LowerHex(digest, 64)
    ensures ValidFinal(c, TheFinal(e, digest))
  {
    assert Bases(TheFinal(e, digest).packages) == e.packages;
    forall i | 0 <= i < |e.packages| ensures ValidRegistry(c, RegistryOf(e.packages[i]), e.packages[i].version) {
      assert ValidRecord(c, e.packages[i]);
    }
  }

  predicate ExactlyObserved(record: PackageRecord, observations: map<Name, Observation>) {
    record.name in observations && observations[record.name].registry == RegistryOf(record)
  }

  ghost predicate AllObserved(e: Expected, observations: map<Name, Observation>) {
    forall i :: 0 <= i < |e.packages| ==> ExactlyObserved(e.packages[i], observations)
  }

  /** Why creation fails: the first of its checks that does, and for a package the first one not exactly observed. */
  ghost predicate FinalFailure(c: Config, e: Expected, digest: string, observations: map<Name, Observation>,
                               error: EvidenceError) {
    if !ValidExpected(c, e) then error == InvalidExpected
    else if !LowerHex(digest, 64) then error == InvalidDigest
    else if !AllObserved(e, observations) then
      exists i :: 0 <= i < |e.packages| && !ExactlyObserved(e.packages[i], observations)
                  && (forall j :: 0 <= j < i ==> ExactlyObserved(e.packages[j], observations))
                  && error == if e.packages[i].name in observations then ConflictingObservation else MissingObservation
    else error == UnknownObservation && exists n :: n in observations && Lookup(c.definitions, n) == None
  }

  /** Creation yields the one final document, and does so exactly when the inputs are valid, every package
      was observed with exactly its expected evidence and nothing outside the table was observed. */
  method CreateFinalEvidence(c: Config, expected: Expected, digest: string, observations: map<Name, Observation>)
    returns (r: Result<Final, EvidenceError>)
    ensures r.Ok? ==> r.value == TheFinal(expected, digest)
    ensures r.Ok? <==> ValidExpected(c, expected) && LowerHex(digest, 64) && AllObserved(expected, observations)
                       && forall n :: n in observations ==> Lookup(c.definitions, n).Some?
    ensures r.Err? ==> FinalFailure(c, expected, digest, observations, r.error)
  {
    hide ValidExpected, ValidFinal, LowerHex;
    if !ValidExpected(c, expected) { return Err(InvalidExpected); }
    if !LowerHex(digest, 64) { return Err(InvalidDigest); }
    var packages: seq<FinalRecord> := [];
    for i := 0 to |expected.packages|
      invariant |packages| == i
      invariant forall j :: 0 <= j < i ==>
                  packages[j] == FinalRecord(expected.packages[j], RegistryOf(expected.packages[j]))
      invariant forall j :: 0 <= j < i ==> ExactlyObserved(expected.packages[j], observations)
    {
      var record := expected.packages[i];
      assert ExactlyObserved(record, observations) <==>
             record.name in observations && Classify(record, Some(observations[record.name])) == Skip;
      if record.name !in observations { return Err(MissingObservation); }
      var observation := observations[record.name];
      if Classify(record, Some(observation)) != Skip { return Err(ConflictingObservation); }
      packages := packages + [FinalRecord(record, observation.registry)];
    }
    if exists n :: n in observations && Lookup(c.definitions, n) == None { return Err(UnknownObservation); }
    var final := Final(SCHEMA_VERSION, expected.sourceCommit, expected.releaseVersion, digest, packages);
    assert packages == TheFinal(expected, digest).packages;
    TheFinalIsValid(c, expected, digest);
    if !ValidFinal(c, final) { return Err(InvalidFinal); }
    r := Ok(final);
  }

  /** Verification accepts exactly one final document for valid expected evidence and its digest. */
  method VerifyFinalEvidence(c: Config, expected: Expected, final: Final, digest: string) returns (ok: bool)
    ensures ok <==> ValidExpected(c, expected) && LowerHex(digest, 64) && final == TheFinal(expected, digest)
  {
    hide ValidRecord, LowerHex, ValidRegistry, Versions.Stable;
    if ValidExpected(c, expected) && LowerHex(digest, 64) { TheFinalIsValid(c, expected, digest); }
    if !ValidExpected(c, expected) || !ValidFinal(c, final) { return false; }
    if final.expectedSha256 != digest { return false; }
    if final.sourceCommit != expected.sourceCommit || final.releaseVersion != expected.releaseVersion { return false; }
    assert |final.packages| == |Bases(final.packages)| == |c.definitions| == |expected.packages|;
    for index := 0 to |expected.packages|
      invariant forall j :: 0 <= j < index ==>
                  final.packages[j] == FinalRecord(expected.packages[j], RegistryOf(expected.packages[j]))
    {
      if expected.packages[index] != final.packages[index].base { return false; }
      var observed := Observation(final.packages[index].registry, None);
      if Classify(expected.packages[index], Some(observed)) != Skip { return false; }
    }
    assert final.packages == TheFinal(expected, digest).packages;
    ok := true;
  }

  /** What acceptance means: the document carries the digest and the release's identity, and every package in
      it is the expected record with the same evidence in the registry. */
  lemma FinalMeans(e: Expected, digest: string, f: Final)
    ensures f == TheFinal(e, digest) <==>
              && f.schemaVersion == 1 && f.sourceCommit == e.sourceCommit && f.releaseVersion == e.releaseVersion
              && f.expectedSha256 == digest && |f.packages| == |e.packages|
              && forall i :: 0 <= i < |e.packages| ==>
                   f.packages[i].base == e.packages[i] && SameEvidence(e.packages[i], f.packages[i].registry)
  {
    var t := TheFinal(e, digest);
    if f.packages != t.packages && |f.packages| == |e.packages| {
      var i :| 0 <= i < |e.packages| && f.packages[i] != t.packages[i];
      assert f.packages[i] != FinalRecord(e.packages[i], RegistryOf(e.packages[i]));
    }
  }

  /** The table row for a name is the last one with that name. */
  lemma {:induction false} LookupMeans(definitions: seq<Definition>, name: Name)
    ensures Lookup(definitions, name) == None <==> forall i :: 0 <= i < |definitions| ==> definitions[i].name != name
    ensures Lookup(definitions, name).Some? ==>
              exists i :: 0 <= i < |definitions| && definitions[i] == Lookup(definitions, name).value
                          && definitions[i].name == name && forall j :: i < j < |definitions| ==>
                              definitions[j].name != name
  {
    if definitions != [] {
      var n := |definitions| - 1;
      var init := definitions[..n];
      LookupMeans(init, name);
      assert forall i :: 0 <= i < n ==> init[i] == definitions[i];
      if definitions[n].name != name && Lookup(definitions, name).Some? {
        var i :| 0 <= i < n && init[i] == Lookup(definitions, name).value && init[i].name == name
                 && forall j :: i < j < n ==> init[j].name != name;
        assert definitions[i] == Lookup(definitions, name).value;
      }
    }
  }

  // ---------------------------------------------------------------- what is valid

  predicate HexText(s: string, n: nat) {
    |s| == n && forall ch :: ch in s ==> ch in "0123456789abcdef"
  }

  /** The row is the last of its name. */
  ghost predicate RowFor(c: Config, row: Definition) {
    exists i :: 0 <= i < |c.definitions| && c.definitions[i] == row
                && forall j :: i < j < |c.definitions| ==> c.definitions[j].name != row.name
  }

  /** A record of this package at this version: its directory from the table, well-formed digests with the
      integrity text of the tarball's, dependencies on table packages at the same version, safe counts. */
  ghost predicate RecordOf(c: Config, r: PackageRecord, name: Name, version: string) {
    && r.name == name && r.version == version && RowFor(c, Definition(r.dir, name))
    && HexText(r.tarballSha512, 128) && r.expectedSri == c.sri(r.tarballSha512) && HexText(r.manifestSha256, 64)
    && (forall n :: n in r.internalDependencies ==>
          r.internalDependencies[n] == version && exists row :: row in c.definitions && row.name == n)
    && 0 <= r.unpackedSize < 9007199254740992 && 0 <= r.fileCount < 9007199254740992
  }

  lemma HexIs(s: string, n: nat)
    ensures LowerHex(s, n) <==> HexText(s, n)
  {
    forall ch: char ensures ch in "0123456789abcdef" <==> '0' <= ch <= '9' || 'a' <= ch <= 'f' { HexDigit(ch); }
    if HexText(s, n) { assert forall i :: 0 <= i < n ==> s[i] in s; }
  }

  lemma HexDigit(ch: char)
    ensures ch in "0123456789abcdef" <==> '0' <= ch <= '9' || 'a' <= ch <= 'f'
  {
    var digits := "0123456789abcdef";
    assert forall i :: 0 <= i < 10 ==> digits[i] as int == 48 + i;
    assert forall i :: 10 <= i < 16 ==> digits[i] as int == 87 + i;
    if '0' <= ch <= '9' { assert digits[ch as int - 48] == ch; }
    if 'a' <= ch <= 'f' { assert digits[ch as int - 87] == ch; }
  }

  lemma RowIs(c: Config, name: Name, dir: string)
    ensures RowFor(c, Definition(dir, name)) <==>
              Lookup(c.definitions, name).Some? && Lookup(c.definitions, name).value.dir == dir
  {
    hide Lookup;
    LookupMeans(c.definitions, name);
  }

  lemma KnownIs(c: Config, name: Name)
    ensures Lookup(c.definitions, name).Some? <==> exists row :: row in c.definitions && row.name == name
  {
    hide Lookup;
    LookupMeans(c.definitions, name);
    if row :| row in c.definitions && row.name == name {
      var i :| 0 <= i < |c.definitions| && c.definitions[i] == row;
    }
  }

  lemma RecordIs(c: Config, r: PackageRecord, name: Name, version: string)
    requires Versions.Stable(version)
    ensures RecordOf(c, r, name, version) <==> ValidRecord(c, r) && r.name == name && r.version == version
  {
    hide Versions.Stable, Lookup, LowerHex, HexText, RowFor;
    HexIs(r.tarballSha512, 128);
    HexIs(r.manifestSha256, 64);
    RowIs(c, r.name, r.dir);
    forall n ensures Lookup(c.definitions, n).Some? <==> exists row ::
        row in c.definitions && row.name == n { KnownIs(c, n); }
  }

  /** Expected evidence is valid exactly when it has the schema version, a commit, a stable version, and one
      record of that version for every package of the table, in table order. */
  lemma ValidExpectedMeans(c: Config, e: Expected)
    ensures ValidExpected(c, e) <==>
              && e.schemaVersion == 1 && HexText(e.sourceCommit, 40) && Versions.Stable(e.releaseVersion)
              && |e.packages| == |c.definitions|
              && forall i :: 0 <= i < |e.packages| ==>
                  RecordOf(c, e.packages[i], c.definitions[i].name, e.releaseVersion)
  {
    hide Versions.Stable, LowerHex, HexText, ValidRecord, RecordOf;
    HexIs(e.sourceCommit, 40);
    if Versions.Stable(e.releaseVersion) && |e.packages| == |c.definitions| {
      forall i | 0 <= i < |e.packages|
        ensures RecordOf(c, e.packages[i], c.definitions[i].name, e.releaseVersion) <==>
                  ValidRecord(c, e.packages[i]) && e.packages[i].name == c.definitions[i].name
                  && e.packages[i].version == e.releaseVersion
      {
        RecordIs(c, e.packages[i], c.definitions[i].name, e.releaseVersion);
      }
    }
  }
}

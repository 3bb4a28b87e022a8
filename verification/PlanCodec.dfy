/** The affected-build plan: task identities, the plan builder, and its encoder and decoder. */
module PlanCodec {
  import opened Common
  import Strings
  import Base64Url

  predicate ProperSegment(s: string) {
    s != "" && s != "." && s != ".." && '/' !in s
  }

  type Segment = s: string | ProperSegment(s) witness "a"

  /** An absolute directory, by its path segments. */
  type Directory = seq<Segment>

  /** Where the repository lies, and how text becomes bytes. */
  datatype Checkout = Checkout(root: Directory, utf8: string -> seq<byte>)

  datatype Capabilities = Capabilities(rust: bool, nextest: bool, nativeConsumer: bool, nativeProducer: bool)
  datatype Phase = Legacy | NativeProducer | TsBuild | CargoBuild | Python

  datatype Task = Task(key: string, identity: Option<string>, description: string, command: seq<string>,
                       cwd: Option<Directory>, capabilities: Option<Capabilities>, phase: Option<Phase>)

  /** A task as it stands in the plan file. */
  datatype Encoded = Encoded(key: string, identity: string, description: string, command: seq<string>,
                             cwd: string, capabilities: Capabilities, phase: Phase)

  /** Distinct texts have distinct bytes. */
  ghost predicate InjectiveText(c: Checkout) {
    forall a, b :: c.utf8(a) == c.utf8(b) ==> a == b
  }

  // ---------------------------------------------------------------- identities

  function StableIdentity(c: Checkout, domain: string, id: string, location: string): string {
    domain + ":" + (Base64Url.Encode(c.utf8(id)) + ":" + Base64Url.Encode(c.utf8(location)))
  }

  /** Domain, id and location can be read off an identity. */
  lemma IdentityInjective(c: Checkout, d: string, i: string, l: string, d': string, i': string, l': string)
    requires InjectiveText(c) && ':' !in d && ':' !in d'
    requires StableIdentity(c, d, i, l) == StableIdentity(c, d', i', l')
    ensures d == d' && i == i' && l == l'
  {
    var a, b, a', b' := Base64Url.Encode(c.utf8(i)), Base64Url.Encode(c.utf8(l)), Base64Url.Encode(c.utf8(i')),
      Base64Url.Encode(c.utf8(l'));
    Strings.FirstSeparator(d, a + ":" + b, d', a' + ":" + b', ':');
    Base64Url.ColonFree(c.utf8(i));
    Base64Url.ColonFree(c.utf8(i'));
    Strings.FirstSeparator(a, b, a', b', ':');
    Base64Url.Injective(c.utf8(i), c.utf8(i'));
    Base64Url.Injective(c.utf8(l), c.utf8(l'));
  }

  // ---------------------------------------------------------------- directories as text

  /** The length of the longest common prefix. */
  function Shared(a: Directory, b: Directory): (k: nat)
    ensures k <= |a| && k <= |b| && a[..k] == b[..k]
  {
    if a == [] || b == [] || a[0] != b[0] then 0
    else
      var k := Shared(a[1..], b[1..]);
      assert a[..k + 1] == [a[0]] + a[1..][..k] && b[..k + 1] == [b[0]] + b[1..][..k];
      k + 1
  }

  function Ups(n: nat): (p: seq<string>)
    ensures |p| == n && forall i :: 0 <= i < n ==> p[i] == ".."
  {
    seq(n, _ => "..")
  }

  /** The parts of path.relative. */
  function Relative(root: Directory, dir: Directory): (p: seq<string>)
    ensures forall i :: 0 <= i < |p| ==> p[i] != "" && '/' !in p[i]
  {
    var k := Shared(root, dir);
    Ups(|root| - k) + dir[k..]
  }

  /** path.relative to the root, with "." for the root itself. */
  function CwdText(c: Checkout, cwd: Option<Directory>): string {
    if cwd == None then "."
    else
      var parts := Relative(c.root, cwd.value);
      if parts == [] then "." else Strings.Join(parts, '/')
  }

  /** Follow path parts from a directory; ".." at the top stays there. */
  function Follow(start: Directory, parts: seq<string>): Directory
    requires forall i :: 0 <= i < |parts| ==> '/' !in parts[i]
  {
    if parts == [] then start
    else
      var n := |parts| - 1;
      var dir := Follow(start, parts[..n]);
      if parts[n] == "" || parts[n] == "." then dir
      else if parts[n] == ".." then (if dir == [] then dir else dir[..|dir| - 1])
      else dir + [parts[n]]
  }

  /** path.join of the root and a text. */
  function JoinRoot(c: Checkout, text: string): Directory {
    Strings.SplitParts(text, '/');
    Follow(c.root, Strings.Split(text, '/'))
  }

  /** path.resolve of a text against the root. */
  function Resolve(c: Checkout, text: string): Directory {
    Strings.SplitParts(text, '/');
    Follow(if text != "" && text[0] == '/' then [] else c.root, Strings.Split(text, '/'))
  }

  lemma {:induction false} FollowTwice(start: Directory, a: seq<string>, b: seq<string>)
    requires forall i :: 0 <= i < |a| ==> '/' !in a[i]
    requires forall i :: 0 <= i < |b| ==> '/' !in b[i]
    ensures Follow(start, a + b) == Follow(Follow(start, a), b)
    decreases |b|
  {
    if b == [] {
      assert a + b == a;
    } else {
      var n := |b| - 1;
      FollowTwice(start, a, b[..n]);
      assert (a + b)[..|a| + n] == a + b[..n] && (a + b)[|a| + n] == b[n];
    }
  }

  lemma {:induction false} FollowUps(start: Directory, m: nat)
    requires m <= |start|
    ensures Follow(start, Ups(m)) == start[..|start| - m]
  {
    if m > 0 {
      FollowUps(start, m - 1);
      assert Ups(m)[..m - 1] == Ups(m - 1);
    }
  }

  lemma {:induction false} FollowSegments(start: Directory, segments: Directory)
    ensures Follow(start, segments) == start + segments
  {
    if segments != [] {
      var n := |segments| - 1;
      FollowSegments(start, segments[..n]);
      assert ProperSegment(segments[n]);
      assert start + segments == start + segments[..n] + [segments[n]];
    } else {
      assert start + segments == start;
    }
  }

  lemma FollowRelative(root: Directory, dir: Directory)
    ensures Follow(root, Relative(root, dir)) == dir
  {
    var k := Shared(root, dir);
    FollowTwice(root, Ups(|root| - k), dir[k..]);
    FollowUps(root, |root| - k);
    FollowSegments(root[..k], dir[k..]);
    assert dir[..k] + dir[k..] == dir;
  }

  /** The directory a task runs in survives the text form; a task without one runs in the root. */
  lemma ResolveCwdText(c: Checkout, cwd: Option<Directory>)
    ensures Resolve(c, CwdText(c, cwd)) == if cwd.Some? then cwd.value else c.root
  {
    hide Relative;
    if cwd == None || Relative(c.root, cwd.value) == [] {
      ResolveDot(c);
      if cwd.Some? { FollowRelative(c.root, cwd.value); }
    } else {
      var parts := Relative(c.root, cwd.value);
      FollowRelative(c.root, cwd.value);
      Strings.SplitJoin(parts, '/');
      JoinStart(parts);
    }
  }

  lemma ResolveDot(c: Checkout)
    ensures Resolve(c, ".") == c.root
  {
    Strings.SplitWhole(".", '/');
    assert ["."][..0] == [];
    assert Follow(c.root, ["."]) == c.root;
  }

  lemma {:induction false} SharedSelf(a: Directory)
    ensures Shared(a, a) == |a|
  {
    if a != [] { SharedSelf(a[1..]); }
  }

  lemma RootText(c: Checkout)
    ensures CwdText(c, Some(c.root)) == "."
  {
    SharedSelf(c.root);
  }

  lemma JoinStart(parts: seq<string>)
    requires parts != [] && parts[0] != "" && '/' !in parts[0]
    ensures Strings.Join(parts, '/') != "" && Strings.Join(parts, '/')[0] != '/'
  {
    assert Strings.Join(parts, '/')[0] == parts[0][0];
  }

  function Slashes(s: string): string {
    if s == "" then "" else Slashes(s[..|s| - 1]) + [if s[|s| - 1] == '\\' then '/' else s[|s| - 1]]
  }

  predicate Contains(s: string, p: string) {
    exists i :: 0 <= i <= |s| && OccursAt(s, p, i)
  }

  /** Parts of an inventory path. */
  predicate NamedParts(parts: seq<string>) {
    forall i :: 0 <= i < |parts| ==> parts[i] != "" && parts[i] != "."
  }

  predicate Acceptable(n: string) {
    n != "" && !StartsWith(n, "/") && !Contains(n, "../") && NamedParts(Strings.Split(n, '/'))
  }

  /** normalizeInventoryPath; None when it throws. */
  function NormalizeInventoryPath(value: string): Option<string> {
    var slashed := Slashes(value);
    var n := if "./" <= slashed then slashed[2..] else slashed;
    if Acceptable(n) then Some(n) else None
  }

  predicate InventoryPath(value: string) {
    NormalizeInventoryPath(value).Some?
  }

  // ---------------------------------------------------------------- encoder and decoder

  predicate RustTest(key: string) { key == "rust-test" || StartsWith(key, "rust-test:partition-") }
  predicate NeedsRust(key: string) {
    || key == "rust-check" || RustTest(key) || key == "ci-selftest" || key == "ci-dry-run"
    || key == "affected-selftest" || key == "affected-dry-run"
  }
  predicate NeedsNative(key: string) {
    || key == "python-test" || key == "root-test" || key == "root-check" || key == "check:@sayknow-cli/coding-agent"
    || key == "cli-smoke" || key == "runtime-check" || key == "wrapper-version" || key == "deep-interview-definitions"
    || key == "deep-interview-runtime" || key == "bridge-client-sdk-package-smoke" || StartsWith(key, "test:")
  }
  predicate NativeBuild(key: string) { key == "native-build" || key == "native-linux-x64" }

  function IdentityOf(c: Checkout, t: Task): string {
    if t.identity.Some? then t.identity.value else StableIdentity(c, "legacy", t.key, CwdText(c, t.cwd))
  }

  function EncodeTask(c: Checkout, t: Task): Encoded {
    Encoded(t.key, IdentityOf(c, t), t.description, t.command, CwdText(c, t.cwd),
            if t.capabilities.Some? then t.capabilities.value
            else Capabilities(NeedsRust(t.key), RustTest(t.key), NeedsNative(t.key), NativeBuild(t.key)),
            if t.phase.Some? then t.phase.value else Legacy)
  }

  datatype PlanError = MissingIdentity | UnsafeDirectory | DuplicateTask

  function DecodeTask(c: Checkout, e: Encoded): Result<Task, PlanError> {
    if e.identity == "" then Err(MissingIdentity)
    else if e.cwd != "." && !InventoryPath(e.cwd) then Err(UnsafeDirectory)
    else Ok(Task(e.key, Some(e.identity), e.description, e.command, Some(Resolve(c, e.cwd)), Some(e.capabilities),
                 Some(e.phase)))
  }

  function Encode(c: Checkout, tasks: seq<Task>): (r: seq<Encoded>)
    ensures |r| == |tasks| && forall i :: 0 <= i < |tasks| ==> r[i] == EncodeTask(c, tasks[i])
  {
    if tasks == [] then [] else Encode(c, tasks[..|tasks| - 1]) + [EncodeTask(c, tasks[|tasks| - 1])]
  }

  function DecodeAll(c: Checkout, plan: seq<Encoded>): Result<seq<Task>, PlanError> {
    if plan == [] then Ok([])
    else
      var init, last := DecodeAll(c, plan[..|plan| - 1]), DecodeTask(c, plan[|plan| - 1]);
      if init.Err? then Err(init.error)
      else if last.Err? then Err(last.error)
      else Ok(init.value + [last.value])
  }

  lemma {:induction false} DecodeAllMeans(c: Checkout, plan: seq<Encoded>)
    ensures DecodeAll(c, plan).Ok? <==> forall i :: 0 <= i < |plan| ==> DecodeTask(c, plan[i]).Ok?
    ensures DecodeAll(c, plan).Ok? ==>
              |DecodeAll(c, plan).value| == |plan| && forall i :: 0 <= i < |plan| ==>
                  DecodeTask(c, plan[i]) == Ok(DecodeAll(c, plan).value[i])
  {
    hide DecodeTask;
    if plan != [] {
      var n := |plan| - 1;
      var init := plan[..n];
      DecodeAllMeans(c, init);
      assert forall i :: 0 <= i < n ==> init[i] == plan[i];
    }
  }

  ghost predicate DistinctTasks(plan: seq<Encoded>) {
    forall i, j :: 0 <= i < j < |plan| ==> plan[i].key != plan[j].key && plan[i].identity != plan[j].identity
  }

  function Keys(tasks: seq<Task>): (r: seq<string>)
    ensures |r| == |tasks| && forall i :: 0 <= i < |tasks| ==> r[i] == tasks[i].key
  {
    seq(|tasks|, i requires 0 <= i < |tasks| => tasks[i].key)
  }

  function Identities(tasks: seq<Task>): (r: seq<Option<string>>)
    ensures |r| == |tasks| && forall i :: 0 <= i < |tasks| ==> r[i] == tasks[i].identity
  {
    seq(|tasks|, i requires 0 <= i < |tasks| => tasks[i].identity)
  }

  /** A set counts every element once. */
  lemma {:induction false} SizeMeansDistinct<T(!new)>(s: seq<T>)
    ensures |set x | x in s| <= |s|
    ensures |set x | x in s| == |s| <==> forall i, j :: 0 <= i < j < |s| ==> s[i] != s[j]
  {
    if s != [] {
      var n := |s| - 1;
      var init := s[..n];
      SizeMeansDistinct(init);
      assert (set x | x in s) == (set x | x in init) + {s[n]};
      assert forall i :: 0 <= i < n ==> s[i] == init[i];
    }
  }

  /** loadCanonicalPlan's task part: decode, then compare the number of keys and identities with the tasks. */
  function LoadPlan(c: Checkout, plan: seq<Encoded>): Result<seq<Task>, PlanError> {
    var tasks := DecodeAll(c, plan);
    if tasks.Err? then Err(tasks.error)
    else if |set k | k in Keys(tasks.value)| != |tasks.value| || |set k | k in Identities(tasks.value)| != |tasks.value|
    then Err(DuplicateTask)
    else tasks
  }

  /** Loading succeeds exactly when every task decodes and neither a key nor an identity repeats. */
  lemma LoadMeans(c: Checkout, plan: seq<Encoded>)
    ensures LoadPlan(c, plan).Ok? <==> DecodeAll(c, plan).Ok? && DistinctTasks(plan)
    ensures LoadPlan(c, plan).Ok? ==> LoadPlan(c, plan) == DecodeAll(c, plan)
    ensures LoadPlan(c, plan) == Err(DuplicateTask) <==> DecodeAll(c, plan).Ok? && !DistinctTasks(plan)
  {
    hide DecodeAll, InventoryPath, Resolve;
    var tasks := DecodeAll(c, plan);
    DecodeErrors(c, plan);
    DecodeAllMeans(c, plan);
    if tasks.Ok? {
      var keys, identities := Keys(tasks.value), Identities(tasks.value);
      SizeMeansDistinct(keys);
      SizeMeansDistinct(identities);
      forall i | 0 <= i < |plan| ensures keys[i] == plan[i].key && identities[i] == Some(plan[i].identity) {
        assert DecodeTask(c, plan[i]) == Ok(tasks.value[i]);
      }
    }
  }

  lemma {:induction false} DecodeErrors(c: Checkout, plan: seq<Encoded>)
    ensures DecodeAll(c, plan) != Err(DuplicateTask)
  {
    hide InventoryPath, Resolve;
    if plan != [] { DecodeErrors(c, plan[..|plan| - 1]); }
  }

  /** What decoding must give back of a task: everything it states, and the encoder's defaults for the rest. */
  predicate SameTask(c: Checkout, t: Task, d: Task) {
    && d.key == t.key && d.description == t.description && d.command == t.command
    && d.identity == Some(IdentityOf(c, t)) && (t.identity.Some? ==> d.identity == t.identity)
    && d.cwd == Some(if t.cwd.Some? then t.cwd.value else c.root)
    && d.capabilities == Some(
         if t.capabilities.Some? then t.capabilities.value
         else Capabilities(NeedsRust(t.key), RustTest(t.key), NeedsNative(t.key), NativeBuild(t.key)))
    && d.phase == Some(if t.phase.Some? then t.phase.value else Legacy)
  }

  /** Decoding an encoded task fails exactly on an empty identity or an unsafe directory text; otherwise it
      gives the task back, and encoding that gives the same text. */
  lemma TaskRoundTrip(c: Checkout, t: Task)
    ensures DecodeTask(c, EncodeTask(c, t)).Ok? <==>
              t.identity != Some("") && (CwdText(c, t.cwd) == "." || InventoryPath(CwdText(c, t.cwd)))
    ensures DecodeTask(c, EncodeTask(c, t)).Ok? ==> SameTask(c, t, DecodeTask(c, EncodeTask(c, t)).value)
    ensures DecodeTask(c, EncodeTask(c, t)).Ok? ==>
              EncodeTask(c, DecodeTask(c, EncodeTask(c, t)).value) == EncodeTask(c, t)
  {
    hide InventoryPath, Resolve, Base64Url.Encode;
    ResolveCwdText(c, t.cwd);
    RootText(c);
    assert t.identity == None ==> IdentityOf(c, t) != "";
  }

  /** An identity is its domain and the encodings of its id and location, between colons. */
  lemma IdentityParts(c: Checkout, domain: string, id: string, location: string)
    requires ':' !in domain
    ensures Strings.Split(StableIdentity(c, domain, id, location), ':')
            == [domain, Base64Url.Encode(c.utf8(id)), Base64Url.Encode(c.utf8(location))]
  {
    hide Base64Url.Encode;
    var a, b := Base64Url.Encode(c.utf8(id)), Base64Url.Encode(c.utf8(location));
    Base64Url.ColonFree(c.utf8(id));
    Base64Url.ColonFree(c.utf8(location));
    Strings.SplitFirst(domain, a + ":" + b, ':');
    Strings.SplitFirst(a, b, ':');
    Strings.SplitWhole(b, ':');
  }

  // ---------------------------------------------------------------- the plan builder

  datatype TsUnit = TsUnit(id: string, name: string, dir: string, nativeConsumer: bool, nativeProducer: bool)
  datatype CargoUnit = CargoUnit(id: string, name: string, manifestPath: string)

  /** What the Cargo selection produced: single crates, or the whole workspace in an emergency. */
  datatype CargoSelection = Crates(units: seq<CargoUnit>) | WorkspaceEmergency

  function NativeTask(c: Checkout): Task {
    Task("native-linux-x64", Some("native:linux-x64:baseline-modern"), "Build linux x64 native addons",
         ["bash", "-lc", "TARGET_VARIANTS=\"baseline modern\" bun scripts/ci-build-native.ts"],
         Some(c.root), Some(Capabilities(true, false, false, true)), Some(NativeProducer))
  }

  function EmergencyTask(c: Checkout): Task {
    Task("cargo-build:emergency:workspace", Some("emergency:cargo-workspace:root"), "Build Cargo workspace",
         ["cargo", "build", "--workspace"],
         Some(c.root), Some(Capabilities(true, false, false, false)), Some(CargoBuild))
  }

  function TsTask(c: Checkout, u: TsUnit): Task {
    var identity := StableIdentity(c, "ts", u.id, u.dir);
    Task("ts-build:" + identity, Some(identity), "Build " + u.name, ["bun", "run", "build"], Some(JoinRoot(c, u.dir)),
         Some(Capabilities(false, false, u.nativeConsumer, u.nativeProducer)), Some(TsBuild))
  }

  function CargoTask(c: Checkout, u: CargoUnit): Task {
    var identity := StableIdentity(c, "cargo", u.id, u.manifestPath);
    Task("cargo-build:" + identity, Some(identity), "Build Cargo crate " + u.name,
         ["cargo", "build", "--package", u.name],
         Some(c.root), Some(Capabilities(true, false, false, false)), Some(CargoBuild))
  }

  function WithoutNative(legacy: seq<Task>): (r: seq<Task>)
    ensures forall t :: t in r <==> t in legacy && !NativeBuild(t.key)
  {
    if legacy == [] then []
    else
      var last := legacy[|legacy| - 1];
      assert forall t :: t in legacy <==> t in legacy[..|legacy| - 1] || t == last;
      WithoutNative(legacy[..|legacy| - 1]) + (if NativeBuild(last.key) then [] else [last])
  }

  function TsTasks(c: Checkout, units: seq<TsUnit>): seq<Task> {
    seq(|units|, i requires 0 <= i < |units| => TsTask(c, units[i]))
  }

  function CargoTasks(c: Checkout, cargo: CargoSelection): seq<Task> {
    match cargo
    case WorkspaceEmergency => [EmergencyTask(c)]
    case Crates(units) => seq(|units|, i requires 0 <= i < |units| => CargoTask(c, units[i]))
  }

  /** Does anything selected need the native addons; `addons` are the crates they are built from. */
  function NeedsProducer(c: Checkout, legacy: seq<Task>, ts: seq<TsUnit>, cargo: seq<Task>,
                         addons: seq<CargoUnit>): bool {
    || (exists i :: 0 <= i < |legacy| && NativeBuild(legacy[i].key))
    || (exists i :: 0 <= i < |legacy| && NeedsNative(legacy[i].key))
    || (exists i :: 0 <= i < |ts| && (ts[i].nativeConsumer || ts[i].nativeProducer))
    || (exists i, j :: 0 <= i < |addons| && 0 <= j < |cargo| && BuildsAddon(c, cargo[j], addons[i]))
  }

  predicate BuildsAddon(c: Checkout, t: Task, addon: CargoUnit) {
    t.key == EmergencyTask(c).key || t.identity == Some(StableIdentity(c, "cargo", addon.id, addon.manifestPath))
  }

  function BuildPlan(c: Checkout, legacy: seq<Task>, ts: seq<TsUnit>, cargo: CargoSelection, addons: seq<CargoUnit>)
    : seq<Task>
  {
    var crates := CargoTasks(c, cargo);
    WithoutNative(legacy) + (if NeedsProducer(c, legacy, ts, crates, addons) then [NativeTask(c)] else [])
    + TsTasks(c, ts) + crates
  }

  // ---------------------------------------------------------------- what a built plan contains

  predicate NativeKey(key: string) { key in {"native-build", "native-linux-x64"} }

  /** `kept` are the positions of the legacy tasks that are not native builds, in order. */
  ghost predicate KeptPositions(legacy: seq<Task>, kept: seq<nat>) {
    && (forall k :: 0 <= k < |kept| ==> kept[k] < |legacy| && !NativeKey(legacy[kept[k]].key))
    && (forall k, l :: 0 <= k < l < |kept| ==> kept[k] < kept[l])
    && (forall i :: 0 <= i < |legacy| && !NativeKey(legacy[i].key) ==> i in kept)
  }

  lemma NativeKeyIs(key: string)
    ensures NativeBuild(key) <==> NativeKey(key)
  {
  }

  function Picked(tasks: seq<Task>, kept: seq<nat>): (r: seq<Task>)
    requires forall k :: 0 <= k < |kept| ==> kept[k] < |tasks|
    ensures |r| == |kept| && forall k :: 0 <= k < |kept| ==> r[k] == tasks[kept[k]]
  {
    seq(|kept|, k requires 0 <= k < |kept| => tasks[kept[k]])
  }

  lemma KeptNext(legacy: seq<Task>, before: seq<nat>)
    requires legacy != [] && KeptPositions(legacy[..|legacy| - 1], before)
    ensures var n := |legacy| - 1; KeptPositions(legacy, if NativeKey(legacy[n].key) then before else before + [n])
  {
    hide NativeKey;
    var n := |legacy| - 1;
    var init, kept := legacy[..n], if NativeKey(legacy[n].key) then before else before + [n];
    assert forall i :: 0 <= i < n ==> init[i] == legacy[i];
    assert forall k :: 0 <= k < |before| ==> kept[k] == before[k] && before[k] < n;
    forall i | 0 <= i < |legacy| && !NativeKey(legacy[i].key) ensures i in kept {
      if i < n { assert i in before; } else { assert kept[|before|] == n; }
    }
  }

  lemma WithoutNativeStep(legacy: seq<Task>)
    requires legacy != []
    ensures var n := |legacy| - 1;
            WithoutNative(legacy) == WithoutNative(legacy[..n]) + if NativeKey(legacy[n].key) then [] else [legacy[n]]
  {
    NativeKeyIs(legacy[|legacy| - 1].key);
  }

  lemma PickedNext(legacy: seq<Task>, before: seq<nat>, keep: bool)
    requires legacy != [] && forall k :: 0 <= k < |before| ==> before[k] < |legacy| - 1
    ensures var n := |legacy| - 1;
            Picked(legacy, if keep then before + [n] else before)
            == Picked(legacy[..n], before) + if keep then [legacy[n]] else []
  {
  }

  lemma {:induction false} WithoutNativeKeeps(legacy: seq<Task>) returns (kept: seq<nat>)
    ensures KeptPositions(legacy, kept) && WithoutNative(legacy) == Picked(legacy, kept)
  {
    hide *;
    if legacy == [] {
      NothingKept();
      return [];
    }
    var n := |legacy| - 1;
    var before := WithoutNativeKeeps(legacy[..n]);
    var keep := !NativeKey(legacy[n].key);
    kept := if keep then before + [n] else before;
    KeptNext(legacy, before);
    KeptBounds(legacy[..n], before);
    KeptBounds(legacy, kept);
    WithoutNativeStep(legacy);
    PickedNext(legacy, before, keep);
  }

  lemma NothingKept()
    ensures KeptPositions([], []) && WithoutNative([]) == Picked([], [])
  {
  }

  lemma KeptBounds(legacy: seq<Task>, kept: seq<nat>)
    requires KeptPositions(legacy, kept)
    ensures forall k :: 0 <= k < |kept| ==> kept[k] < |legacy|
  {
  }

  /** The build task of a TypeScript unit: its own build script, in its directory. */
  predicate BuildsTs(c: Checkout, u: TsUnit, t: Task) {
    && t.identity == Some(StableIdentity(c, "ts", u.id, u.dir)) && t.key == "ts-build:" + t.identity.value
    && t.command == ["bun", "run", "build"] && t.cwd == Some(JoinRoot(c, u.dir)) && t.description == "Build " + u.name
    && t.capabilities == Some(Capabilities(false, false, u.nativeConsumer, u.nativeProducer))
        && t.phase == Some(TsBuild)
  }

  /** The build task of a crate: cargo for that package, in the root. */
  predicate BuildsCrate(c: Checkout, u: CargoUnit, t: Task) {
    && t.identity == Some(StableIdentity(c, "cargo", u.id, u.manifestPath))
        && t.key == "cargo-build:" + t.identity.value
    && t.command == ["cargo", "build", "--package", u.name] && t.cwd == Some(c.root)
    && t.description == "Build Cargo crate " + u.name
    && t.capabilities == Some(Capabilities(true, false, false, false)) && t.phase == Some(CargoBuild)
  }

  predicate BuildsWorkspace(c: Checkout, t: Task) {
    && t.key == "cargo-build:emergency:workspace" && t.identity == Some("emergency:cargo-workspace:root")
    && t.command == ["cargo", "build", "--workspace"] && t.cwd == Some(c.root)
        && t.description == "Build Cargo workspace"
    && t.capabilities == Some(Capabilities(true, false, false, false)) && t.phase == Some(CargoBuild)
  }

  predicate BuildsNative(c: Checkout, t: Task) {
    && t.key == "native-linux-x64" && t.identity == Some("native:linux-x64:baseline-modern") && t.cwd == Some(c.root)
    && t.command == ["bash", "-lc", "TARGET_VARIANTS=\"baseline modern\" bun scripts/ci-build-native.ts"]
    && t.description == "Build linux x64 native addons"
    && t.capabilities == Some(Capabilities(true, false, false, true)) && t.phase == Some(NativeProducer)
  }

  /** The native addons are needed for a planned task that builds or uses them, for a TypeScript unit that
      does, for the whole workspace, or for a selected crate they are built from. */
  ghost predicate AddonsNeeded(legacy: seq<Task>, ts: seq<TsUnit>, cargo: CargoSelection, addons: seq<CargoUnit>) {
    || (exists t :: t in legacy && (NativeKey(t.key) || NeedsNative(t.key)))
    || (exists u :: u in ts && (u.nativeConsumer || u.nativeProducer))
    || (if cargo.Crates? then SelectsAddon(cargo.units, addons) else addons != [])
  }

  lemma AddonIdentity(c: Checkout, addon: CargoUnit, u: CargoUnit)
    requires InjectiveText(c)
    ensures BuildsAddon(c, CargoTask(c, u), addon) <==> addon.id == u.id && addon.manifestPath == u.manifestPath
  {
    hide Base64Url.Encode, InjectiveText;
    var i, j := StableIdentity(c, "cargo", addon.id, addon.manifestPath),
      StableIdentity(c, "cargo", u.id, u.manifestPath);
    if i == j { IdentityInjective(c, "cargo", addon.id, addon.manifestPath, "cargo", u.id, u.manifestPath); }
    assert CargoTask(c, u).key[12] == 'c' && EmergencyTask(c).key[12] == 'e';
  }

  /** Some task of the selection builds what the addons are built from. */
  ghost predicate SomeBuildsAddon(c: Checkout, tasks: seq<Task>, addons: seq<CargoUnit>) {
    exists i, j :: 0 <= i < |addons| && 0 <= j < |tasks| && BuildsAddon(c, tasks[j], addons[i])
  }

  ghost predicate SelectsAddon(units: seq<CargoUnit>, addons: seq<CargoUnit>) {
    exists a, u :: a in addons && u in units && a.id == u.id && a.manifestPath == u.manifestPath
  }

  lemma CratesBuildAddons(c: Checkout, units: seq<CargoUnit>, tasks: seq<Task>, addons: seq<CargoUnit>)
    requires InjectiveText(c) && |tasks| == |units| && forall j :: 0 <= j < |units| ==>
               tasks[j] == CargoTask(c, units[j])
    ensures SomeBuildsAddon(c, tasks, addons) <==> SelectsAddon(units, addons)
  {
    hide CargoTask, BuildsAddon, InjectiveText;
    if i, j :| 0 <= i < |addons| && 0 <= j < |tasks| && BuildsAddon(c, tasks[j], addons[i]) {
      AddonIdentity(c, addons[i], units[j]);
      assert addons[i] in addons && units[j] in units;
    }
    if a, u :| a in addons && u in units && a.id == u.id && a.manifestPath == u.manifestPath {
      var i :| 0 <= i < |addons| && addons[i] == a;
      var j :| 0 <= j < |units| && units[j] == u;
      AddonIdentity(c, addons[i], units[j]);
      assert BuildsAddon(c, tasks[j], addons[i]);
    }
  }

  lemma CargoNeedsAddons(c: Checkout, cargo: CargoSelection, addons: seq<CargoUnit>)
    requires InjectiveText(c)
    ensures SomeBuildsAddon(c, CargoTasks(c, cargo), addons) <==>
              if cargo.Crates? then SelectsAddon(cargo.units, addons) else addons != []
  {
    match cargo
    case WorkspaceEmergency => if addons != [] { assert BuildsAddon(c, CargoTasks(c, cargo)[0], addons[0]); }
    case Crates(units) =>
      hide InjectiveText, CargoTask, SomeBuildsAddon, SelectsAddon;
      CratesBuildAddons(c, units, CargoTasks(c, cargo), addons);
  }

  lemma ProducerExactlyWhenNeeded(c: Checkout, legacy: seq<Task>, ts: seq<TsUnit>, cargo: CargoSelection,
                                  addons: seq<CargoUnit>)
    requires InjectiveText(c)
    ensures NeedsProducer(c, legacy, ts, CargoTasks(c, cargo), addons) <==> AddonsNeeded(legacy, ts, cargo, addons)
  {
    hide CargoTasks, BuildsAddon, NeedsNative, NativeBuild, NativeKey, SelectsAddon, InjectiveText;
    CargoNeedsAddons(c, cargo, addons);
    forall i | 0 <= i < |legacy|
      ensures legacy[i] in legacy && (NativeBuild(legacy[i].key) <==> NativeKey(legacy[i].key)) {
      NativeKeyIs(legacy[i].key);
    }
    assert forall i :: 0 <= i < |ts| ==> ts[i] in ts;
    assert SomeBuildsAddon(c, CargoTasks(c, cargo), addons) <==>
             exists i, j ::
                 0 <= i < |addons| && 0 <= j < |CargoTasks(c, cargo)|
                     && BuildsAddon(c, CargoTasks(c, cargo)[j], addons[i]);
  }

  /** The plan is, in order: the tasks at the kept positions, the native producer when it is needed, one
      build per TypeScript unit, and one build per crate or the workspace. */
  ghost predicate Assembled(c: Checkout, plan: seq<Task>, legacy: seq<Task>, kept: seq<nat>, needed: bool,
                            ts: seq<TsUnit>,
                            cargo: CargoSelection)
  {
    && (forall k :: 0 <= k < |kept| ==> kept[k] < |legacy|)
    && exists native, builds, crates ::
         && plan == Picked(legacy, kept) + native + builds + crates
         && (if needed then |native| == 1 && BuildsNative(c, native[0]) else native == [])
         && TsBuilds(c, ts, builds) && CargoBuilds(c, cargo, crates)
  }

  ghost predicate TsBuilds(c: Checkout, ts: seq<TsUnit>, tasks: seq<Task>) {
    |tasks| == |ts| && forall i :: 0 <= i < |ts| ==> BuildsTs(c, ts[i], tasks[i])
  }

  ghost predicate CargoBuilds(c: Checkout, cargo: CargoSelection, tasks: seq<Task>) {
    match cargo
    case WorkspaceEmergency => |tasks| == 1 && BuildsWorkspace(c, tasks[0])
    case Crates(units) => |tasks| == |units| && forall i :: 0 <= i < |units| ==> BuildsCrate(c, units[i], tasks[i])
  }

  /** A built plan has exactly these parts, with the native producer exactly when the addons are needed. */
  lemma PlanContents(c: Checkout, legacy: seq<Task>, ts: seq<TsUnit>, cargo: CargoSelection, addons: seq<CargoUnit>)
    returns (kept: seq<nat>)
    requires InjectiveText(c)
    ensures KeptPositions(legacy, kept)
    ensures Assembled(c, BuildPlan(c, legacy, ts, cargo, addons), legacy, kept, AddonsNeeded(legacy, ts, cargo, addons),
                      ts,
                      cargo)
  {
    hide WithoutNative, NeedsProducer, AddonsNeeded, TsTasks, CargoTasks, BuildsNative, TsBuilds, CargoBuilds,
      KeptPositions,
      InjectiveText, NativeTask;
    kept := WithoutNativeKeeps(legacy);
    KeptBounds(legacy, kept);
    ProducerExactlyWhenNeeded(c, legacy, ts, cargo, addons);
    TasksSpelled(c, ts, cargo);
    NativeSpelled(c);
    var native := if AddonsNeeded(legacy, ts, cargo, addons) then [NativeTask(c)] else [];
    assert BuildPlan(c, legacy, ts, cargo, addons)
           == Picked(legacy, kept) + native + TsTasks(c, ts) + CargoTasks(c, cargo);
  }

  lemma NativeSpelled(c: Checkout)
    ensures BuildsNative(c, NativeTask(c))
  {
  }

  lemma TasksSpelled(c: Checkout, ts: seq<TsUnit>, cargo: CargoSelection)
    ensures TsBuilds(c, ts, TsTasks(c, ts)) && CargoBuilds(c, cargo, CargoTasks(c, cargo))
  {
    hide StableIdentity;
  }

  // ---------------------------------------------------------------- distinct keys and identities

  ghost predicate Apart(c: Checkout, t: Task, u: Task) {
    t.key != u.key && IdentityOf(c, t) != IdentityOf(c, u)
  }

  ghost predicate AllApart(c: Checkout, tasks: seq<Task>) {
    forall i, j :: 0 <= i < j < |tasks| ==> Apart(c, tasks[i], tasks[j])
  }

  lemma ApartConcat(c: Checkout, a: seq<Task>, b: seq<Task>)
    requires AllApart(c, a) && AllApart(c, b) && forall t, u :: t in a && u in b ==> Apart(c, t, u)
    ensures AllApart(c, a + b)
  {
    hide Apart;
    var all := a + b;
    forall i, j | 0 <= i < j < |all| ensures Apart(c, all[i], all[j]) {
      if j < |a| { assert all[i] == a[i] && all[j] == a[j]; }
      else if i >= |a| { assert all[i] == b[i - |a|] && all[j] == b[j - |a|]; }
      else { assert all[i] in a && all[j] in b; }
    }
  }

  /** A task of the earlier planner stages: no identity of its own and no key of a build phase. */
  predicate LegacyTask(t: Task) {
    t.identity == None && !StartsWith(t.key, "ts-build:") && !StartsWith(t.key, "cargo-build:")
  }

  /** The first letter of the identity; every kind of task has its own. */
  function Initial(c: Checkout, t: Task): Option<char> {
    if IdentityOf(c, t) == "" then None else Some(IdentityOf(c, t)[0])
  }

  lemma LegacyInitial(c: Checkout, t: Task)
    requires LegacyTask(t)
    ensures Initial(c, t) == Some('l')
  {
    hide Base64Url.Encode, CwdText;
  }

  lemma NativeInitial(c: Checkout)
    ensures Initial(c, NativeTask(c)) == Some('n')
  {
  }

  lemma TsFacts(c: Checkout, u: TsUnit)
    ensures Initial(c, TsTask(c, u)) == Some('t') && StartsWith(TsTask(c, u).key, "ts-build:")
            && TsTask(c, u).key[0] == 't'
  {
    hide Base64Url.Encode;
  }

  predicate CargoFacts(c: Checkout, t: Task) {
    (Initial(c, t) == Some('c') || Initial(c, t) == Some('e')) && StartsWith(t.key, "cargo-build:")
  }

  lemma CrateFacts(c: Checkout, u: CargoUnit)
    ensures CargoFacts(c, CargoTask(c, u))
  {
    hide Base64Url.Encode;
  }

  lemma EmergencyFacts(c: Checkout)
    ensures CargoFacts(c, EmergencyTask(c))
  {
    assert EmergencyTask(c).key[..12] == "cargo-build:";
  }

  lemma InitialsApart(c: Checkout, t: Task, u: Task)
    requires Initial(c, t) != Initial(c, u) && t.key != u.key
    ensures Apart(c, t, u)
  {
  }

  lemma LegacyApart(c: Checkout, t: Task, u: Task)
    requires InjectiveText(c) && LegacyTask(t) && LegacyTask(u) && t.key != u.key
    ensures Apart(c, t, u)
  {
    hide Base64Url.Encode, CwdText;
    if IdentityOf(c, t) == IdentityOf(c, u) {
      IdentityInjective(c, "legacy", t.key, CwdText(c, t.cwd), "legacy", u.key, CwdText(c, u.cwd));
    }
  }

  lemma PrefixedApart(prefix: string, a: string, b: string)
    requires a != b
    ensures prefix + a != prefix + b
  {
    assert (prefix + a)[|prefix|..] == a && (prefix + b)[|prefix|..] == b;
  }

  lemma TsApart(c: Checkout, u: TsUnit, v: TsUnit)
    requires InjectiveText(c) && u.id != v.id
    ensures Apart(c, TsTask(c, u), TsTask(c, v))
  {
    hide Base64Url.Encode, CwdText;
    var a, b := u.dir, v.dir;
    var i, j := StableIdentity(c, "ts", u.id, a), StableIdentity(c, "ts", v.id, b);
    if i == j { IdentityInjective(c, "ts", u.id, a, "ts", v.id, b); }
    PrefixedApart("ts-build:", i, j);
  }

  lemma CargoApart(c: Checkout, u: CargoUnit, v: CargoUnit)
    requires InjectiveText(c) && u.id != v.id
    ensures Apart(c, CargoTask(c, u), CargoTask(c, v))
  {
    hide Base64Url.Encode;
    var i, j := StableIdentity(c, "cargo", u.id, u.manifestPath), StableIdentity(c, "cargo", v.id, v.manifestPath);
    if i == j { IdentityInjective(c, "cargo", u.id, u.manifestPath, "cargo", v.id, v.manifestPath); }
    PrefixedApart("cargo-build:", i, j);
  }

  ghost predicate LegacyList(legacy: seq<Task>) {
    && (forall i :: 0 <= i < |legacy| ==> LegacyTask(legacy[i]))
    && (forall i, j :: 0 <= i < j < |legacy| ==> legacy[i].key != legacy[j].key)
  }

  lemma {:induction false} FilteredApart(c: Checkout, legacy: seq<Task>)
    requires InjectiveText(c) && LegacyList(legacy)
    ensures AllApart(c, WithoutNative(legacy))
  {
    hide LegacyTask, Apart, AllApart, NativeBuild, InjectiveText, LegacyList;
    if legacy == [] {
      SingleApart(c, []);
    } else {
      var n := |legacy| - 1;
      LastApart(c, legacy);
      FilteredApart(c, legacy[..n]);
      SingleApart(c, [legacy[n]]);
      ApartConcat(c, WithoutNative(legacy[..n]), [legacy[n]]);
      assert WithoutNative(legacy[..n]) + [] == WithoutNative(legacy[..n]);
    }
  }

  lemma LastApart(c: Checkout, legacy: seq<Task>)
    requires InjectiveText(c) && LegacyList(legacy) && legacy != []
    ensures LegacyList(legacy[..|legacy| - 1])
    ensures forall t, u :: t in WithoutNative(legacy[..|legacy| - 1]) && u in [legacy[|legacy| - 1]] ==> Apart(c, t, u)
  {
    hide LegacyTask, Apart, NativeBuild, InjectiveText;
    var n := |legacy| - 1;
    var init := legacy[..n];
    forall t, u | t in WithoutNative(init) && u in [legacy[n]] ensures Apart(c, t, u) {
      assert t in init;
      var i :| 0 <= i < |init| && init[i] == t;
      assert legacy[i] == t;
      LegacyApart(c, t, legacy[n]);
    }
  }

  /** What the builder starts from: earlier tasks under distinct keys, and distinct unit ids. */
  ghost predicate BuilderInput(legacy: seq<Task>, ts: seq<TsUnit>, cargo: CargoSelection) {
    && LegacyList(legacy)
    && (forall i, j :: 0 <= i < j < |ts| ==> ts[i].id != ts[j].id)
    && (cargo.Crates? ==> forall i, j :: 0 <= i < j < |cargo.units| ==> cargo.units[i].id != cargo.units[j].id)
  }

  lemma UnitsApart(c: Checkout, legacy: seq<Task>, ts: seq<TsUnit>, cargo: CargoSelection)
    requires InjectiveText(c) && BuilderInput(legacy, ts, cargo)
    ensures AllApart(c, TsTasks(c, ts)) && AllApart(c, CargoTasks(c, cargo))
  {
    hide Apart, TsTask, CargoTask, InjectiveText;
    forall i, j | 0 <= i < j < |ts| ensures Apart(c, TsTasks(c, ts)[i], TsTasks(c, ts)[j]) {
      TsApart(c, ts[i], ts[j]);
    }
    if cargo.Crates? {
      forall i, j | 0 <= i < j < |cargo.units| ensures Apart(c, CargoTasks(c, cargo)[i], CargoTasks(c, cargo)[j]) {
        CargoApart(c, cargo.units[i], cargo.units[j]);
      }
    }
  }

  lemma TsMember(c: Checkout, ts: seq<TsUnit>, t: Task)
    requires t in TsTasks(c, ts)
    ensures Initial(c, t) == Some('t') && StartsWith(t.key, "ts-build:") && t.key[0] == 't'
  {
    hide TsTask, Initial;
    var i :| 0 <= i < |ts| && TsTasks(c, ts)[i] == t;
    TsFacts(c, ts[i]);
  }

  lemma CargoMember(c: Checkout, cargo: CargoSelection, t: Task)
    requires t in CargoTasks(c, cargo)
    ensures CargoFacts(c, t)
  {
    hide CargoTask, CargoFacts;
    match cargo
    case WorkspaceEmergency => EmergencyFacts(c);
    case Crates(units) =>
      var i :| 0 <= i < |units| && CargoTasks(c, cargo)[i] == t;
      CrateFacts(c, units[i]);
  }

  lemma ReservedKey(t: Task)
    requires StartsWith(t.key, "cargo-build:")
    ensures t.key[0] == 'c'
  {
  }

  lemma CrossApart(c: Checkout, legacy: seq<Task>, ts: seq<TsUnit>, cargo: CargoSelection)
    requires BuilderInput(legacy, ts, cargo)
    ensures forall t, u :: t in WithoutNative(legacy) && u == NativeTask(c) ==> Apart(c, t, u)
    ensures forall t, u :: (t in WithoutNative(legacy) || t == NativeTask(c)) && u in TsTasks(c, ts) ==> Apart(c, t, u)
    ensures forall t, u ::
              (t in WithoutNative(legacy) || t == NativeTask(c) || t in TsTasks(c, ts)) && u in CargoTasks(c, cargo) ==>
                Apart(c, t, u)
  {
    hide Initial, TsTasks, CargoTasks, Apart;
    NativeInitial(c);
    forall t | t in WithoutNative(legacy)
      ensures LegacyTask(t) && Initial(c, t) == Some('l') && t.key != "native-linux-x64" {
      assert t in legacy;
      LegacyInitial(c, t);
    }
    forall t, u | t in WithoutNative(legacy) && u == NativeTask(c) ensures Apart(c, t, u) {
      InitialsApart(c, t, u);
    }
    forall t, u | (t in WithoutNative(legacy) || t == NativeTask(c)) && u in TsTasks(c, ts) ensures Apart(c, t, u) {
      TsMember(c, ts, u);
      InitialsApart(c, t, u);
    }
    forall t, u | (t in WithoutNative(legacy) || t == NativeTask(c) || t in TsTasks(c, ts)) && u in CargoTasks(c, cargo)
      ensures Apart(c, t, u)
    {
      CargoMember(c, cargo, u);
      ReservedKey(u);
      if t in TsTasks(c, ts) { TsMember(c, ts, t); }
      InitialsApart(c, t, u);
    }
  }

  /** Every built plan has pairwise distinct keys and identities. */
  lemma BuiltPlanIsDistinct(c: Checkout, legacy: seq<Task>, ts: seq<TsUnit>, cargo: CargoSelection,
                            addons: seq<CargoUnit>)
    requires InjectiveText(c) && BuilderInput(legacy, ts, cargo)
    ensures AllApart(c, BuildPlan(c, legacy, ts, cargo, addons))
  {
    hide Apart, AllApart, TsTasks, CargoTasks, WithoutNative, InjectiveText, NeedsProducer;
    var needs := NeedsProducer(c, legacy, ts, CargoTasks(c, cargo), addons);
    var a, b := WithoutNative(legacy), if needs then [NativeTask(c)] else [];
    FilteredApart(c, legacy);
    UnitsApart(c, legacy, ts, cargo);
    CrossApart(c, legacy, ts, cargo);
    SingleApart(c, b);
    ApartConcat(c, a, b);
    ApartConcat(c, a + b, TsTasks(c, ts));
    ApartConcat(c, a + b + TsTasks(c, ts), CargoTasks(c, cargo));
  }

  lemma SingleApart(c: Checkout, tasks: seq<Task>)
    requires |tasks| <= 1
    ensures AllApart(c, tasks)
  {
  }

  /** What the decoder lets back in. */
  predicate SafeTask(c: Checkout, t: Task) {
    t.identity != Some("") && (CwdText(c, t.cwd) == "." || InventoryPath(CwdText(c, t.cwd)))
  }

  // ---------------------------------------------------------------- inventory directories are safe

  lemma {:induction false} SlashesMeans(s: string)
    ensures |Slashes(s)| == |s| && forall i :: 0 <= i < |s| ==> Slashes(s)[i] == if s[i] == '\\' then '/' else s[i]
    ensures '\\' !in Slashes(s)
    ensures '\\' !in s ==> Slashes(s) == s
  {
    if s != "" { SlashesMeans(s[..|s| - 1]); }
  }

  /** A text that has an unacceptable opening "./" has "." as its first part. */
  lemma DotFirst(n: string)
    requires "./" <= n
    ensures !NamedParts(Strings.Split(n, '/'))
  {
    assert n == "." + ['/'] + n[2..];
    Strings.SplitFirst(".", n[2..], '/');
    assert Strings.Split(n, '/')[0] == ".";
  }

  /** Acceptable text without a backslash is its own normal form. */
  lemma AcceptableIsNormal(n: string)
    requires Acceptable(n) && '\\' !in n
    ensures NormalizeInventoryPath(n) == Some(n)
  {
    SlashesMeans(n);
    if "./" <= n { DotFirst(n); }
  }

  lemma NormalIsAcceptable(raw: string, n: string)
    requires NormalizeInventoryPath(raw) == Some(n)
    ensures Acceptable(n) && '\\' !in n
  {
    SlashesMeans(raw);
  }

  lemma {:induction false} JoinPrefix(p: seq<string>, k: nat)
    requires 0 < k <= |p|
    ensures Strings.Join(p[..k], '/') <= Strings.Join(p, '/')
  {
    if k < |p| {
      if k == 1 {
        assert p[..1] == [p[0]];
      } else {
        JoinPrefix(p[1..], k - 1);
        assert p[..k][1..] == p[1..][..k - 1];
      }
    } else {
      assert p[..k] == p;
    }
  }

  lemma ContainsLater(s: string, before: string, p: string)
    requires Contains(s, p)
    ensures Contains(before + s, p)
  {
    var i :| 0 <= i <= |s| && OccursAt(s, p, i);
    var t := before + s;
    assert t[|before| + i..|before| + i + |p|] == s[i..i + |p|];
    assert OccursAt(t, p, |before| + i);
  }

  lemma ContainsEarlier(s: string, t: string, p: string)
    requires s <= t && Contains(s, p)
    ensures Contains(t, p)
  {
    var i :| 0 <= i <= |s| && OccursAt(s, p, i);
    assert t[i..i + |p|] == s[i..i + |p|];
    assert OccursAt(t, p, i);
  }

  /** A ".." that is not the last part shows as "../". */
  lemma {:induction false} UpShows(p: seq<string>, i: nat)
    requires i + 1 < |p| && p[i] == ".."
    ensures Contains(Strings.Join(p, '/'), "../")
  {
    var rest := Strings.Join(p[1..], '/');
    if i == 0 {
      var text := ".." + ['/'] + rest;
      assert text[0..3] == "../";
      assert OccursAt(text, "../", 0);
    } else {
      UpShows(p[1..], i - 1);
      ContainsLater(rest, p[0] + ['/'], "../");
    }
  }

  /** All parts of an acceptable text but the last are proper segments, and the last is one or "..". */
  lemma AcceptableParts(n: string)
    requires Acceptable(n)
    ensures var p := Strings.Split(n, '/');
            && Strings.Join(p, '/') == n
            && (forall i :: 0 <= i < |p| - 1 ==> ProperSegment(p[i]))
            && (ProperSegment(p[|p| - 1]) || p[|p| - 1] == "..")
  {
    hide Contains;
    var p := Strings.Split(n, '/');
    Strings.JoinSplit(n, '/');
    Strings.SplitParts(n, '/');
    forall i | 0 <= i < |p| - 1 ensures ProperSegment(p[i]) {
      if p[i] == ".." { UpShows(p, i); }
    }
  }

  lemma {:induction false} SharedBelow(root: Directory, rest: Directory)
    ensures Shared(root, root + rest) == |root| && Shared(root + rest, root) == |root|
  {
    if root != [] {
      SharedBelow(root[1..], rest);
      assert (root + rest)[1..] == root[1..] + rest;
    }
  }

  /** Text of a directory below the root. */
  lemma BelowText(c: Checkout, rest: Directory)
    ensures CwdText(c, Some(c.root + rest)) == if rest == [] then "." else Strings.Join(rest, '/')
  {
    SharedBelow(c.root, rest);
    var dir := c.root + rest;
    assert dir[|c.root|..] == rest;
    assert Ups(0) == [] && Relative(c.root, dir) == rest;
  }

  lemma ParentText(c: Checkout)
    requires c.root != []
    ensures CwdText(c, Some(c.root[..|c.root| - 1])) == ".."
  {
    var n := |c.root| - 1;
    var up := c.root[..n];
    assert up + [c.root[n]] == c.root;
    SharedBelow(up, [c.root[n]]);
    assert up[n..] == [] && Relative(c.root, up) == [".."];
  }

  /** A leading stretch of an acceptable text is acceptable. */
  lemma PrefixIsAcceptable(n: string, k: nat)
    requires Acceptable(n) && '\\' !in n && 0 < k < |Strings.Split(n, '/')|
    ensures var t := Strings.Join(Strings.Split(n, '/')[..k], '/'); Acceptable(t) && '\\' !in t
  {
    hide Contains;
    var p := Strings.Split(n, '/');
    AcceptableParts(n);
    var t := Strings.Join(p[..k], '/');
    JoinPrefix(p, k);
    if Contains(t, "../") { ContainsEarlier(t, n, "../"); }
    Strings.SplitJoin(p[..k], '/');
    JoinStart(p[..k]);
    assert Strings.Split("", '/') == [""];
  }

  /** The directory reached by named parts and then "..". */
  lemma UpText(c: Checkout, n: string, names: Directory)
    requires Acceptable(n) && '\\' !in n && Strings.Split(n, '/') == names + [".."]
    requires Follow(c.root, names) == c.root + names
    ensures var text := CwdText(c, Some(JoinRoot(c, n))); text == "." || InventoryPath(text)
  {
    var p, k := Strings.Split(n, '/'), |names|;
    assert p[..k] == names && p[k] == "..";
    AcceptableIsNormal(n);
    AcceptableParts(n);
    if k > 0 {
      var rest := names[..k - 1];
      assert (c.root + names)[..|c.root| + k - 1] == c.root + rest;
      assert JoinRoot(c, n) == c.root + rest;
      BelowText(c, rest);
      if rest != [] {
        assert p[..k - 1] == rest;
        PrefixIsAcceptable(n, k - 1);
        AcceptableIsNormal(Strings.Join(rest, '/'));
      }
    } else {
      assert p == [".."] && n == "..";
      if c.root == [] { BelowText(c, []); assert c.root + [] == c.root; } else { ParentText(c); }
    }
  }

  lemma DownText(c: Checkout, n: string, names: Directory)
    requires Acceptable(n) && '\\' !in n && Strings.Split(n, '/') == names && Strings.Join(names, '/') == n
    ensures InventoryPath(CwdText(c, Some(JoinRoot(c, n))))
  {
    hide Acceptable, NormalizeInventoryPath, CwdText;
    AcceptableIsNormal(n);
    FollowSegments(c.root, names);
    BelowText(c, names);
  }

  /** The directory of an acceptable text reads back as safe text. */
  lemma JoinedTextIsSafe(c: Checkout, n: string)
    requires Acceptable(n) && '\\' !in n
    ensures var text := CwdText(c, Some(JoinRoot(c, n))); text == "." || InventoryPath(text)
  {
    hide Acceptable, CwdText, InventoryPath, Follow;
    AcceptableParts(n);
    var p := Strings.Split(n, '/');
    var k := |p| - 1;
    assert p == p[..k] + [p[k]];
    if ProperSegment(p[k]) {
      DownText(c, n, p);
    } else {
      FollowSegments(c.root, p[..k]);
      UpText(c, n, p[..k]);
    }
  }

  predicate EndsInDots(s: string) { |s| >= 2 && s[|s| - 2..] == ".." }

  lemma DotsSlash(t: string, i: nat)
    requires OccursAt(t, "../", i)
    ensures i + 2 < |t| && t[i] == '.' && t[i + 1] == '.' && t[i + 2] == '/'
  {
    assert t[i] == t[i..i + 3][0] && t[i + 1] == t[i..i + 3][1] && t[i + 2] == t[i..i + 3][2];
  }

  lemma {:induction false} NoUpIn(p: Directory, i: nat)
    requires p != [] && forall k :: 0 <= k < |p| ==> !EndsInDots(p[k])
    ensures !OccursAt(Strings.Join(p, '/'), "../", i)
    decreases |p|
  {
    var t, a := Strings.Join(p, '/'), |p[0]|;
    assert ProperSegment(p[0]);
    if |p| > 1 {
      var rest := Strings.Join(p[1..], '/');
      assert t == p[0] + "/" + rest;
      if i > a {
        NoUpIn(p[1..], i - a - 1);
        if i + 3 <= |t| { assert t[i..i + 3] == rest[i - a - 1..i - a + 2]; }
      }
    }
    assert a >= 2 ==> p[0][a - 2..] == [p[0][a - 2], p[0][a - 1]];
    assert forall k :: 0 <= k < a ==> t[k] == p[0][k] && t[k] != '/';
    if OccursAt(t, "../", i) && i <= a { DotsSlash(t, i); }
  }

  /** A directory of proper names, none of which ends in two dots or holds a backslash, is its own normal form,
      and stays so with "./" in front. */
  lemma PlainDirectoryIsAccepted(p: Directory)
    requires p != [] && forall k :: 0 <= k < |p| ==> !EndsInDots(p[k]) && '\\' !in p[k]
    ensures var n := Strings.Join(p, '/');
            NormalizeInventoryPath(n) == Some(n) && NormalizeInventoryPath("./" + n) == Some(n)
  {
    var n := Strings.Join(p, '/');
    hide Acceptable, Contains;
    JoinIsAcceptable(p);
    AcceptableIsNormal(n);
    SlashesMeans("./" + n);
    assert ("./" + n)[2..] == n;
  }

  lemma JoinIsAcceptable(p: Directory)
    requires p != [] && forall k :: 0 <= k < |p| ==> !EndsInDots(p[k]) && '\\' !in p[k]
    ensures Acceptable(Strings.Join(p, '/')) && '\\' !in Strings.Join(p, '/')
  {
    var n := Strings.Join(p, '/');
    forall k | 0 <= k < |p| ensures p[k] != "" && p[k] != "." && '/' !in p[k] { assert ProperSegment(p[k]); }
    Strings.SplitJoin(p, '/');
    JoinStart(p);
    hide EndsInDots, OccursAt;
    forall i: nat ensures !OccursAt(n, "../", i) { NoUpIn(p, i); }
    JoinHasNo(p, '\\');
  }

  lemma {:induction false} JoinHasNo(p: seq<string>, c: char)
    requires p != [] && c != '/' && forall k :: 0 <= k < |p| ==> c !in p[k]
    ensures c !in Strings.Join(p, '/')
  {
    if |p| > 1 { JoinHasNo(p[1..], c); }
  }

  /** A TypeScript unit whose directory came out of normalizeInventoryPath gives a task the decoder lets in. */
  lemma InventoryUnitIsSafe(c: Checkout, u: TsUnit, raw: string)
    requires NormalizeInventoryPath(raw) == Some(u.dir)
    ensures SafeTask(c, TsTask(c, u))
  {
    hide Acceptable, NormalizeInventoryPath, CwdText, Base64Url.Encode, InventoryPath, JoinRoot;
    NormalIsAcceptable(raw, u.dir);
    JoinedTextIsSafe(c, u.dir);
    TsFacts(c, u);
  }

  lemma EncodeDistinct(c: Checkout, tasks: seq<Task>)
    requires AllApart(c, tasks)
    ensures DistinctTasks(Encode(c, tasks))
  {
    hide IdentityOf, CwdText;
    forall i, j | 0 <= i < j < |tasks|
      ensures Encode(c, tasks)[i].key != Encode(c, tasks)[j].key
              && Encode(c, tasks)[i].identity != Encode(c, tasks)[j].identity
    {
      assert Apart(c, tasks[i], tasks[j]);
    }
  }

  /** Loading an encoded built plan never trips the duplicate check, succeeds exactly when every task's
      directory is safe, and encoding the loaded tasks then gives back the same plan. */
  lemma BuiltPlanRoundTrips(c: Checkout, legacy: seq<Task>, ts: seq<TsUnit>, cargo: CargoSelection,
                            addons: seq<CargoUnit>)
    requires InjectiveText(c) && BuilderInput(legacy, ts, cargo)
    ensures var tasks := BuildPlan(c, legacy, ts, cargo, addons);
            var plan := Encode(c, tasks);
            && LoadPlan(c, plan) != Err(DuplicateTask)
            && (LoadPlan(c, plan).Ok? <==> forall i :: 0 <= i < |tasks| ==> SafeTask(c, tasks[i]))
            && (LoadPlan(c, plan).Ok? ==> Encode(c, LoadPlan(c, plan).value) == plan)
  {
    hide BuildPlan, EncodeTask, DecodeTask, InventoryPath, InjectiveText, CwdText, AllApart, DistinctTasks, LoadPlan;
    var tasks := BuildPlan(c, legacy, ts, cargo, addons);
    var plan := Encode(c, tasks);
    BuiltPlanIsDistinct(c, legacy, ts, cargo, addons);
    EncodeDistinct(c, tasks);
    LoadMeans(c, plan);
    DecodeAllMeans(c, plan);
    forall i | 0 <= i < |plan|
      ensures DecodeTask(c, plan[i]).Ok? <==> SafeTask(c, tasks[i])
      ensures DecodeTask(c, plan[i]).Ok? ==> EncodeTask(c, DecodeTask(c, plan[i]).value) == plan[i]
    {
      assert tasks[i] in tasks;
      TaskRoundTrip(c, tasks[i]);
    }
    if DecodeAll(c, plan).Ok? {
      var back := Encode(c, DecodeAll(c, plan).value);
      assert forall i :: 0 <= i < |plan| ==> back[i] == plan[i];
    }
  }
}

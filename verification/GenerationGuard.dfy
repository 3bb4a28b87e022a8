/** The generation guard: which changes between two commits demand a higher daemon generation, and what
    that means over a history of accepted commits. Parsing is behind the snapshots. */
module GenerationGuard {
  import opened Common

  datatype Family = Telegram | Discord | Slack

  /** A protected declaration: a symbol of a file, protected for one family. */
  datatype Site = Site(family: Family, file: string, symbol: string)

  /** A declaration as extracted: absent, unparseable or ambiguous, or its canonical syntax tree. */
  datatype Declaration = Missing | Malformed | Declared(canonical: string)

  /** A commit as the guard sees it. Digests are None when an authority declaration is missing or malformed. */
  datatype Snapshot = Snapshot(
    declarations: map<(string, string), Declaration>,
    authority: map<string, string>,
    guardSource: Option<string>, guardCanonical: Option<string>, policy: Option<string>, contractVersion: Option<real>)

  /** Fixed parts of the guard: where each family's generation constant is declared, how a canonical
      declaration denotes a number, and the native sources whose authority all families share. */
  datatype Guard = Guard(constants: Family -> (string, string), literal: string -> Option<real>,
                         nativeSources: set<string>)

  function DeclarationOf(s: Snapshot, file: string, symbol: string): Declaration {
    if (file, symbol) in s.declarations then s.declarations[(file, symbol)] else Missing
  }

  function DigestOf(s: Snapshot, source: string): Option<string> {
    if source in s.authority then Some(s.authority[source]) else None
  }

  /** The family's generation, when its constant is declared as a numeric literal. */
  function Generation(g: Guard, s: Snapshot, f: Family): Option<real> {
    match DeclarationOf(s, g.constants(f).0, g.constants(f).1)
    case Declared(canonical) => g.literal(canonical)
    case _ => None
  }

  /** Strictly higher than a known old value; an unknown old value counts as 0 only while bootstrapping. */
  predicate Bumped(before: Option<real>, after: Option<real>, bootstrapping: bool) {
    after.Some? && if before.Some? then after.value > before.value else bootstrapping && after.value > 0.0
  }

  // ---------------------------------------------------------------- evaluation

  datatype Change = Protected(site: Site) | Authority(affected: Family, source: string)
  {
    function Of(): Family { if Protected? then site.family else affected }
  }

  datatype Evaluation = Evaluation(changes: seq<Change>, malformed: bool, bumped: map<Family, bool>,
                                   policyChanged: bool, contractBumped: bool)

  function SiteDeclaration(s: Snapshot, site: Site): Declaration {
    DeclarationOf(s, site.file, site.symbol)
  }

  predicate SiteChanged(base: Snapshot, head: Snapshot, site: Site) {
    SiteDeclaration(base, site) != SiteDeclaration(head, site)
  }

  predicate SiteMalformed(base: Snapshot, head: Snapshot, inventory: set<Site>, baseInventory: set<Site>,
                          bootstrapping: bool, site: Site) {
    || (site in inventory && !SiteDeclaration(head, site).Declared?)
    || (!bootstrapping && site in baseInventory && !SiteDeclaration(base, site).Declared?)
  }

  predicate AuthorityMalformed(base: Snapshot, head: Snapshot, source: string) {
    DigestOf(base, source) == None || DigestOf(head, source) == None
  }

  const FAMILIES: seq<Family> := [Telegram, Discord, Slack]

  /** One authority change for every family. */
  function AuthorityChanges(source: string): (r: seq<Change>)
    ensures forall c :: c in r <==> c.Authority? && c.source == source
  {
    var r := [Authority(Telegram, source), Authority(Discord, source), Authority(Slack, source)];
    EveryFamily(source, r);
    r
  }

  lemma EveryFamily(source: string, r: seq<Change>)
    requires r == [Authority(Telegram, source), Authority(Discord, source), Authority(Slack, source)]
    ensures forall c: Change :: c.Authority? && c.source == source ==> c in r
  {
    forall c: Change | c.Authority? && c.source == source ensures c in r {
      match c.affected
      case Telegram => assert c == r[0];
      case Discord => assert c == r[1];
      case Slack => assert c == r[2];
    }
  }

  /** Every site protected before or after, then every native source; the visiting order is free. */
  method Evaluate(g: Guard, base: Snapshot, head: Snapshot, inventory: set<Site>, baseInventory: set<Site>,
                  bootstrapping: bool)
    returns (e: Evaluation)
    ensures forall site :: Protected(site) in e.changes <==>
              site in inventory + baseInventory && SiteChanged(base, head, site)
    ensures forall f, source :: Authority(f, source) in e.changes <==>
              source in g.nativeSources && DigestOf(base, source) != DigestOf(head, source)
    ensures e.malformed <==>
              || (exists site ::
                    site in inventory + baseInventory
                        && SiteMalformed(base, head, inventory, baseInventory, bootstrapping, site))
              || (exists source :: source in g.nativeSources && AuthorityMalformed(base, head, source))
    ensures e.bumped == map f | f in {Telegram, Discord, Slack} ::
              Bumped(Generation(g, base, f), Generation(g, head, f), bootstrapping)
    ensures e.policyChanged <==>
              !bootstrapping && (base.guardCanonical != head.guardCanonical || base.policy != head.policy)
    ensures e.contractBumped <==> Bumped(base.contractVersion, head.contractVersion, false)
  {
    hide SiteChanged, SiteMalformed, AuthorityMalformed, DigestOf, Generation, Bumped;
    var siteChanges, badSites := EvaluateSites(base, head, inventory, baseInventory, bootstrapping);
    var authorityChanges, badSources := EvaluateAuthority(g, base, head);
    var changes := siteChanges + authorityChanges;
    assert forall c :: c in changes <==> c in siteChanges || c in authorityChanges;
    e := Evaluation(
      changes, badSites || badSources,
      map f | f in {Telegram, Discord, Slack} :: Bumped(Generation(g, base, f), Generation(g, head, f), bootstrapping),
      !bootstrapping && (base.guardCanonical != head.guardCanonical || base.policy != head.policy),
      Bumped(base.contractVersion, head.contractVersion, false));
  }

  method EvaluateSites(base: Snapshot, head: Snapshot, inventory: set<Site>, baseInventory: set<Site>,
                       bootstrapping: bool)
    returns (changes: seq<Change>, malformed: bool)
    ensures forall c :: c in changes <==>
              c.Protected? && c.site in inventory + baseInventory && SiteChanged(base, head, c.site)
    ensures malformed <==>
              exists site ::
                  site in inventory + baseInventory
                      && SiteMalformed(base, head, inventory, baseInventory, bootstrapping, site)
  {
    hide SiteChanged, SiteMalformed;
    changes, malformed := [], false;
    var todo, done := inventory + baseInventory, {};
    while todo != {}
      invariant todo + done == inventory + baseInventory
      invariant forall c :: c in changes <==> c.Protected? && c.site in done && SiteChanged(base, head, c.site)
      invariant malformed <==> exists site ::
                  site in done && SiteMalformed(base, head, inventory, baseInventory, bootstrapping, site)
    {
      var site :| site in todo;
      if SiteMalformed(base, head, inventory, baseInventory, bootstrapping, site) { malformed := true; }
      if SiteChanged(base, head, site) { changes := changes + [Protected(site)]; }
      todo, done := todo - {site}, done + {site};
    }
  }

  method EvaluateAuthority(g: Guard, base: Snapshot, head: Snapshot) returns (changes: seq<Change>, malformed: bool)
    ensures forall c :: c in changes <==>
              c.Authority? && c.source in g.nativeSources && DigestOf(base, c.source) != DigestOf(head, c.source)
    ensures malformed <==> exists source :: source in g.nativeSources && AuthorityMalformed(base, head, source)
  {
    hide DigestOf, AuthorityMalformed;
    changes, malformed := [], false;
    var todo, done := g.nativeSources, {};
    while todo != {}
      invariant todo + done == g.nativeSources
      invariant forall c :: c in changes <==>
                  c.Authority? && c.source in done && DigestOf(base, c.source) != DigestOf(head, c.source)
      invariant malformed <==> exists source :: source in done && AuthorityMalformed(base, head, source)
    {
      var source :| source in todo;
      if AuthorityMalformed(base, head, source) { malformed := true; }
      if DigestOf(base, source) != DigestOf(head, source) {
        changes := changes + AuthorityChanges(source);
      }
      todo, done := todo - {source}, done + {source};
    }
  }

  // ---------------------------------------------------------------- the decision

  /** Something the family's daemon depends on differs between the two commits. */
  ghost predicate FamilyChanged(g: Guard, base: Snapshot, head: Snapshot, protectedSites: set<Site>, f: Family) {
    || (exists site :: site in protectedSites && site.family == f && SiteChanged(base, head, site))
    || (exists source :: source in g.nativeSources && DigestOf(base, source) != DigestOf(head, source))
  }

  /** What the guard lets through. */
  ghost predicate Passes(g: Guard, base: Snapshot, head: Snapshot, inventory: set<Site>, baseInventory: set<Site>,
                         bootstrapping: bool) {
    && (base.guardSource.Some? && !bootstrapping
        && (base.guardCanonical != head.guardCanonical || base.policy != head.policy) ==>
          Bumped(base.contractVersion, head.contractVersion, false))
    && (forall site :: site in inventory + baseInventory ==>
          !SiteMalformed(base, head, inventory, baseInventory, bootstrapping, site))
    && (forall source :: source in g.nativeSources ==> !AuthorityMalformed(base, head, source))
    && (forall f :: FamilyChanged(g, base, head, inventory + baseInventory, f) ==>
                      Bumped(Generation(g, base, f), Generation(g, head, f), bootstrapping))
  }

  method Run(g: Guard, base: Snapshot, head: Snapshot, inventory: set<Site>, baseInventory: set<Site>,
             bootstrapping: bool) returns (ok: bool)
    ensures ok <==> Passes(g, base, head, inventory, baseInventory, bootstrapping)
  {
    hide SiteChanged, SiteMalformed, AuthorityMalformed, DigestOf, Generation, Bumped;
    var e := Evaluate(g, base, head, inventory, baseInventory, bootstrapping);
    if base.guardSource.Some? && e.policyChanged && !e.contractBumped { return false; }
    if e.malformed { return false; }
    for i := 0 to |FAMILIES|
      invariant forall j :: 0 <= j < i ==> FamilyChanged(g, base, head, inventory + baseInventory, FAMILIES[j]) ==>
                  e.bumped[FAMILIES[j]]
    {
      var f := FAMILIES[i];
      var changed := exists j :: 0 <= j < |e.changes| && e.changes[j].Of() == f;
      ChangedMeans(g, base, head, inventory + baseInventory, e.changes, f);
      if changed && !e.bumped[f] {
        return false;
      }
    }
    forall f ensures f in e.bumped && (FamilyChanged(g, base, head, inventory + baseInventory, f) ==> e.bumped[f]) {
      assert f == FAMILIES[0] || f == FAMILIES[1] || f == FAMILIES[2];
    }
    ok := true;
  }

  lemma ChangedMeans(g: Guard, base: Snapshot, head: Snapshot, protectedSites: set<Site>, changes: seq<Change>,
                     f: Family)
    requires forall site :: Protected(site) in changes <==> site in protectedSites && SiteChanged(base, head, site)
    requires forall h, source :: Authority(h, source) in changes <==>
               source in g.nativeSources && DigestOf(base, source) != DigestOf(head, source)
    ensures (exists j :: 0 <= j < |changes| && changes[j].Of() == f) <==>
              FamilyChanged(g, base, head, protectedSites, f)
  {
    hide SiteChanged, DigestOf;
    if j :| 0 <= j < |changes| && changes[j].Of() == f {
      assert changes[j] in changes;
      match changes[j]
      case Protected(site) => assert site in protectedSites && SiteChanged(base, head, site);
      case Authority(h, source) => assert Authority(h, source) in changes;
    }
    if site :| site in protectedSites && site.family == f && SiteChanged(base, head, site) {
      assert Protected(site) in changes;
      var j :| 0 <= j < |changes| && changes[j] == Protected(site);
    }
    if source :| source in g.nativeSources && DigestOf(base, source) != DigestOf(head, source) {
      assert Authority(f, source) in changes;
      var j :| 0 <= j < |changes| && changes[j] == Authority(f, source);
    }
  }

  // ---------------------------------------------------------------- histories

  /** Commits in order, each accepted against its predecessor after bootstrap, by its own and the
      predecessor's inventory. */
  ghost predicate History(g: Guard, commits: seq<Snapshot>, inventories: seq<set<Site>>) {
    && |inventories| == |commits|
    && forall i :: 0 < i < |commits| ==>
        Passes(g, commits[i - 1], commits[i], inventories[i], inventories[i - 1], false)
  }

  /** The inventory protects the family's own generation constant. */
  predicate ProtectsConstant(g: Guard, inventory: set<Site>, f: Family) {
    Site(f, g.constants(f).0, g.constants(f).1) in inventory
  }

  ghost predicate AlwaysProtectsConstant(g: Guard, inventories: seq<set<Site>>, f: Family) {
    forall i :: 0 <= i < |inventories| ==> ProtectsConstant(g, inventories[i], f)
  }

  /** The two commits agree on everything protected for the family. */
  ghost predicate Agree(g: Guard, a: Snapshot, b: Snapshot, inventory: set<Site>, f: Family) {
    && (forall site :: site in inventory && site.family == f ==> SiteDeclaration(a, site) == SiteDeclaration(b, site))
    && (forall source :: source in g.nativeSources ==> DigestOf(a, source) == DigestOf(b, source))
  }

  /** Sites protected at every commit from i to j. */
  ghost predicate Throughout(inventories: seq<set<Site>>, i: nat, j: nat, site: Site)
    requires j < |inventories|
  {
    forall k :: i <= k <= j ==> site in inventories[k]
  }

  /** No commit after i and up to j changes anything protected before or after it. */
  ghost predicate Quiet(g: Guard, commits: seq<Snapshot>, inventories: seq<set<Site>>, f: Family, i: nat, j: nat)
    requires j < |commits| == |inventories|
  {
    forall k :: i < k <= j ==> Agree(g, commits[k - 1], commits[k], inventories[k] + inventories[k - 1], f)
  }

  ghost predicate Raised(a: Option<real>, b: Option<real>) {
    a.Some? && b.Some? && a.value < b.value
  }

  /** One accepted commit: either nothing protected before or after it changed, and the generation is the
      same, or the generation rose. */
  lemma StepRaisesOrKeeps(g: Guard, a: Snapshot, b: Snapshot, inventory: set<Site>, baseInventory: set<Site>, f: Family)
    requires Passes(g, a, b, inventory, baseInventory, false) && ProtectsConstant(g, inventory + baseInventory, f)
    ensures || (Agree(g, a, b, inventory + baseInventory, f) && Generation(g, a, f) == Generation(g, b, f))
            || Raised(Generation(g, a, f), Generation(g, b, f))
  {
    if !FamilyChanged(g, a, b, inventory + baseInventory, f) {
      assert !SiteChanged(a, b, Site(f, g.constants(f).0, g.constants(f).1));
    }
  }

  lemma {:induction false} HistoryRaisesOrKeeps(g: Guard, commits: seq<Snapshot>, inventories: seq<set<Site>>,
                                                f: Family, i: nat, j: nat)
    requires History(g, commits, inventories) && AlwaysProtectsConstant(g, inventories, f) && i <= j < |commits|
    ensures || (Quiet(g, commits, inventories, f, i, j) && Generation(g, commits[i], f) == Generation(g, commits[j], f))
            || Raised(Generation(g, commits[i], f), Generation(g, commits[j], f))
    decreases j
  {
    hide Passes, Agree, Generation, ProtectsConstant;
    if i < j {
      HistoryRaisesOrKeeps(g, commits, inventories, f, i, j - 1);
      assert ProtectsConstant(g, inventories[j], f);
      EitherProtects(g, inventories[j], inventories[j - 1], f);
      StepRaisesOrKeeps(g, commits[j - 1], commits[j], inventories[j], inventories[j - 1], f);
    }
  }

  lemma EitherProtects(g: Guard, a: set<Site>, b: set<Site>, f: Family)
    requires ProtectsConstant(g, a, f)
    ensures ProtectsConstant(g, a + b, f)
  {
  }

  /** Agreement adds up along quiet commits, for what is protected all the way. */
  lemma {:induction false} QuietAgrees(g: Guard, commits: seq<Snapshot>, inventories: seq<set<Site>>, f: Family, i: nat,
                                       k: nat)
    requires i <= k < |commits| == |inventories| && Quiet(g, commits, inventories, f, i, k)
    ensures forall site: Site :: site.family == f && Throughout(inventories, i, k, site) ==>
              SiteDeclaration(commits[i], site) == SiteDeclaration(commits[k], site)
    ensures forall source :: source in g.nativeSources ==> DigestOf(commits[i], source) == DigestOf(commits[k], source)
    decreases k
  {
    hide SiteDeclaration, DigestOf;
    if i < k {
      QuietAgrees(g, commits, inventories, f, i, k - 1);
      assert Agree(g, commits[k - 1], commits[k], inventories[k] + inventories[k - 1], f);
      forall site: Site | site.family == f && Throughout(inventories, i, k, site)
        ensures SiteDeclaration(commits[i], site) == SiteDeclaration(commits[k], site)
      {
        assert Throughout(inventories, i, k - 1, site);
        assert site in inventories[k];
      }
    }
  }

  /** Over any accepted history a family's generation never falls. Between two commits with the same
      generation no commit changes the generation, the native authority, or anything that the inventory
      before or after it protects; so what is protected throughout is the same at every commit. */
  lemma GenerationsFenceHistory(g: Guard, commits: seq<Snapshot>, inventories: seq<set<Site>>, f: Family, i: nat,
                                k: nat, j: nat)
    requires History(g, commits, inventories) && AlwaysProtectsConstant(g, inventories, f) && i <= k <= j < |commits|
    ensures var a, b := Generation(g, commits[i], f), Generation(g, commits[j], f);
            && (a == b || Raised(a, b))
            && (a == b ==> Quiet(g, commits, inventories, f, i, j) && Generation(g, commits[k], f) == a)
    ensures Generation(g, commits[i], f) == Generation(g, commits[j], f) ==>
              && (forall source :: source in g.nativeSources ==>
                    DigestOf(commits[i], source) == DigestOf(commits[k], source))
              && forall site: Site :: site.family == f && Throughout(inventories, i, k, site) ==>
                   SiteDeclaration(commits[i], site) == SiteDeclaration(commits[k], site)
  {
    hide Passes, Agree, Generation, ProtectsConstant, DigestOf, SiteDeclaration;
    HistoryRaisesOrKeeps(g, commits, inventories, f, i, j);
    HistoryRaisesOrKeeps(g, commits, inventories, f, i, k);
    HistoryRaisesOrKeeps(g, commits, inventories, f, k, j);
    if Generation(g, commits[i], f) == Generation(g, commits[j], f) {
      QuietAgrees(g, commits, inventories, f, i, k);
    }
  }

  /** A change of native authority raises the generation of all three families in that very commit. */
  lemma AuthorityChangeRaisesAll(g: Guard, a: Snapshot, b: Snapshot, inventory: set<Site>, baseInventory: set<Site>,
                                 source: string)
    requires Passes(g, a, b, inventory, baseInventory, false)
    requires source in g.nativeSources && DigestOf(a, source) != DigestOf(b, source)
    ensures forall f :: Raised(Generation(g, a, f), Generation(g, b, f))
  {
    forall f ensures Raised(Generation(g, a, f), Generation(g, b, f)) {
      assert FamilyChanged(g, a, b, inventory + baseInventory, f);
    }
  }

  // ---------------------------------------------------------------- the decision on the raw data

  predicate HasDeclaration(s: Snapshot, site: Site) {
    (site.file, site.symbol) in s.declarations && s.declarations[(site.file, site.symbol)].Declared?
  }

  /** The family's constant is a numeric literal of this value. */
  predicate StatesGeneration(g: Guard, s: Snapshot, f: Family, v: real) {
    g.constants(f) in s.declarations && s.declarations[g.constants(f)].Declared?
    && g.literal(s.declarations[g.constants(f)].canonical) == Some(v)
  }

  /** The new generation is stated, and higher than the stated old one; when no old one is stated, only the
      bootstrap commit may pass, with a positive one. */
  ghost predicate Rises(g: Guard, base: Snapshot, head: Snapshot, f: Family, bootstrapping: bool) {
    exists v ::
      && StatesGeneration(g, head, f, v)
      && (forall u :: StatesGeneration(g, base, f, u) ==> u < v)
      && ((exists u :: StatesGeneration(g, base, f, u)) || (bootstrapping && v > 0.0))
  }

  lemma RisesIsBumped(g: Guard, base: Snapshot, head: Snapshot, f: Family, bootstrapping: bool)
    ensures Rises(g, base, head, f, bootstrapping) <==>
              Bumped(Generation(g, base, f), Generation(g, head, f), bootstrapping)
  {
    StatedIs(g, base, f);
    StatedIs(g, head, f);
    hide StatesGeneration, Generation;
    var a, b := Generation(g, base, f), Generation(g, head, f);
    if Bumped(a, b, bootstrapping) { assert StatesGeneration(g, head, f, b.value); }
    if a.Some? { assert StatesGeneration(g, base, f, a.value); }
  }

  lemma StatedIs(g: Guard, s: Snapshot, f: Family)
    ensures forall v :: StatesGeneration(g, s, f, v) <==> Generation(g, s, f) == Some(v)
  {
  }

  /** Two commits differ at a site: one has no declaration there, or they have different ones. */
  predicate DiffersAt(base: Snapshot, head: Snapshot, site: Site) {
    HasDeclaration(base, site) != HasDeclaration(head, site)
    || (HasDeclaration(base, site)
        && base.declarations[(site.file, site.symbol)].canonical != head.declarations[(site.file,
          site.symbol)].canonical)
  }

  ghost predicate SomethingDiffers(g: Guard, base: Snapshot, head: Snapshot, sites: set<Site>, f: Family) {
    || (exists site :: site in sites && site.family == f && DiffersAt(base, head, site))
    || (exists source :: source in g.nativeSources && source in base.authority && source in head.authority
                         && base.authority[source] != head.authority[source])
  }

  /** Everything protected is declared where it is protected. */
  ghost predicate AllDeclared(base: Snapshot, head: Snapshot, inventory: set<Site>, baseInventory: set<Site>) {
    && (forall site :: site in inventory ==> HasDeclaration(head, site))
    && (forall site :: site in baseInventory ==> HasDeclaration(base, site))
  }

  ghost predicate AuthorityKnown(g: Guard, base: Snapshot, head: Snapshot) {
    forall source :: source in g.nativeSources ==> source in base.authority && source in head.authority
  }

  lemma DeclaredMeans(base: Snapshot, head: Snapshot, inventory: set<Site>, baseInventory: set<Site>)
    ensures AllDeclared(base, head, inventory, baseInventory) <==>
              forall site :: site in inventory + baseInventory ==>
                !SiteMalformed(base, head, inventory, baseInventory, false, site)
  {
    forall site: Site
      ensures HasDeclaration(base, site) <==> SiteDeclaration(base, site).Declared?
      ensures HasDeclaration(head, site) <==> SiteDeclaration(head, site).Declared?
    {
    }
    hide HasDeclaration, SiteDeclaration;
    if AllDeclared(base, head, inventory, baseInventory) {
      forall site | site in inventory + baseInventory
        ensures !SiteMalformed(base, head, inventory, baseInventory, false, site) {}
    } else {
      var site :| (site in inventory && !HasDeclaration(head, site))
          || (site in baseInventory && !HasDeclaration(base, site));
      assert site in inventory + baseInventory;
      assert SiteMalformed(base, head, inventory, baseInventory, false, site);
    }
  }

  lemma DifferenceIsChange(g: Guard, base: Snapshot, head: Snapshot, inventory: set<Site>, baseInventory: set<Site>,
                           f: Family)
    requires AllDeclared(base, head, inventory, baseInventory) && AuthorityKnown(g, base, head)
    ensures FamilyChanged(g, base, head, inventory + baseInventory, f) <==>
              SomethingDiffers(g, base, head, inventory + baseInventory, f)
  {
    var sites := inventory + baseInventory;
    forall site | site in sites ensures SiteChanged(base, head, site) <==> DiffersAt(base, head, site) {}
    hide SiteChanged, DiffersAt;
  }

  /** A commit passes after bootstrap exactly when: a changed guard or policy comes with a higher contract
      version; everything protected, before or after, is declared where it is protected; every native
      authority is known on both sides; and each family with a changed declaration or authority states a
      higher generation. */
  lemma DecisionSpelledOut(g: Guard, base: Snapshot, head: Snapshot, inventory: set<Site>, baseInventory: set<Site>)
    ensures Passes(g, base, head, inventory, baseInventory, false) <==>
              && (base.guardSource.Some?
                  && (base.guardCanonical != head.guardCanonical || base.policy != head.policy) ==>
                    base.contractVersion.Some? && head.contractVersion.Some?
                    && base.contractVersion.value < head.contractVersion.value)
              && AllDeclared(base, head, inventory, baseInventory) && AuthorityKnown(g, base, head)
              && forall f :: SomethingDiffers(g, base, head, inventory + baseInventory, f) ==>
                  Rises(g, base, head, f, false)
  {
    hide AllDeclared, SiteMalformed, Rises, Generation, SomethingDiffers, FamilyChanged;
    DeclaredMeans(base, head, inventory, baseInventory);
    assert AuthorityKnown(g, base, head) <==>
             forall source :: source in g.nativeSources ==> !AuthorityMalformed(base, head, source);
    hide AuthorityKnown, AuthorityMalformed;
    forall f
      ensures Rises(g, base, head, f, false) <==> Bumped(Generation(g, base, f), Generation(g, head, f), false)
      ensures AllDeclared(base, head, inventory, baseInventory) && AuthorityKnown(g, base, head) ==>
                (FamilyChanged(g, base, head, inventory + baseInventory, f) <==>
                   SomethingDiffers(g, base, head, inventory + baseInventory, f))
    {
      RisesIsBumped(g, base, head, f, false);
      if AllDeclared(base, head, inventory, baseInventory) && AuthorityKnown(g, base, head) {
        DifferenceIsChange(g, base, head, inventory, baseInventory, f);
      }
    }
  }
}

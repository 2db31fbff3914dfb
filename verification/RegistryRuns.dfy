/** Whole-run theorems: what holds of every store any sequence of commands can reach. */
module RegistryRuns {
  import opened Common
  import opened BumpLevels
  import opened ChangeClassifier
  import opened DependencyGraph
  import opened BumpPropagation
  import opened ProductVersion
  import opened Store
  import opened StoreInvariant
  import opened StoreSteps

  /** `states[i]` answers `commands[i]` with `outcomes[i]` and becomes `states[i + 1]`. */
  datatype Run = Run(states: seq<Store>, commands: seq<Command>, outcomes: seq<Outcome>)

  ghost predicate Step(r: Run, i: nat)
    requires |r.states| == |r.commands| + 1 == |r.outcomes| + 1 && i < |r.commands|
  {
    Next(r.states[i], r.commands[i], r.states[i + 1], r.outcomes[i])
  }

  ghost predicate IsRun(r: Run) {
    && |r.states| == |r.commands| + 1 == |r.outcomes| + 1
    && Initial(r.states[0])
    && forall i :: 0 <= i < |r.commands| ==> Step(r, i)
  }

  lemma {:induction false} EveryStateHoldsInv(r: Run, i: nat)
    requires IsRun(r) && i < |r.states|
    ensures Inv(r.states[i])
  {
    hide Inv, Next, Initial;
    if i == 0 {
      assert Initial(r.states[0]);
      InitialHoldsInv(r.states[0]);
    } else {
      EveryStateHoldsInv(r, i - 1);
      assert Step(r, i - 1);
      NextKeepsInv(r.states[i - 1], r.commands[i - 1], r.states[i], r.outcomes[i - 1]);
    }
  }

  lemma ExtendsTransitive(a: Store, b: Store, c: Store)
    requires Extends(a, b) && Extends(b, c)
    ensures Extends(a, c)
  {
  }

  /** Between any two points of a run nothing is lost or rewritten, and rolled back is terminal. */
  lemma {:induction false} HistoryOnlyGrows(r: Run, i: nat, j: nat)
    requires IsRun(r) && i <= j < |r.states|
    ensures Extends(r.states[i], r.states[j])
    decreases j
  {
    hide Inv, Next, Initial, Extends;
    if i == j {
      NothingChangesExtends(r.states[i]);
    } else {
      HistoryOnlyGrows(r, i, j - 1);
      EveryStateHoldsInv(r, j - 1);
      assert Step(r, j - 1);
      NextKeepsInv(r.states[j - 1], r.commands[j - 1], r.states[j], r.outcomes[j - 1]);
      ExtendsTransitive(r.states[i], r.states[j - 1], r.states[j]);
    }
  }

  // ----- Components -----

  ghost predicate HasVersion(vs: map<Id, Version>, c: Id) {
    exists v :: v in vs && vs[v].component == c
  }

  /** In every reachable store a component is active iff it has any version at all. */
  lemma ActiveIffVersioned(s: Store, product: Id)
    requires Inv(s)
    ensures forall c :: c in ActiveComponents(s, product) <==>
      HasVersion(s.versions, c) && c in s.components && s.components[c].product == product
  {
  }

  /** The set of active components of a product only ever grows. */
  lemma ActiveComponentsGrow(r: Run, i: nat, j: nat, product: Id)
    requires IsRun(r) && i <= j < |r.states|
    ensures ActiveComponents(r.states[i], product) <= ActiveComponents(r.states[j], product)
  {
    hide IsRun;
    HistoryOnlyGrows(r, i, j);
    EveryStateHoldsInv(r, i);
    EveryStateHoldsInv(r, j);
    ActiveIffVersioned(r.states[i], product);
    ActiveIffVersioned(r.states[j], product);
  }

  /** An active component depends directly on a component that has no version yet. */
  ghost predicate DependsOnUnversioned(s: Store, product: Id) {
    exists e :: e in ProductEdges(s.dependencies, product)
      && HasVersion(s.versions, e.dependent) && !HasVersion(s.versions, e.dependency)
  }

  lemma EdgesStayInProduct(s: Store, product: Id)
    requires Inv(s)
    ensures forall e :: e in ProductEdges(s.dependencies, product) ==>
      && e.dependent in s.components && s.components[e.dependent].product == product
      && e.dependency in s.components && s.components[e.dependency].product == product
  {
    hide LedgerOk, PinsOk, SingleActive, Acyclic;
    forall e | e in ProductEdges(s.dependencies, product)
      ensures e.dependent in s.components && s.components[e.dependent].product == product
      ensures e.dependency in s.components && s.components[e.dependency].product == product
    {
      var id :| id in s.dependencies && s.dependencies[id].product == product && s.dependencies[id].edge == e;
      assert DependencyOk(s.products, s.components, s.dependencies[id]);
    }
  }

  /**
   * The bump of a cut in any reachable store: the highest own change, raised to minor exactly when
   * an active component depends directly on a component that has never had a version.
   */
  lemma CutBumpFormula(s: Store, product: Id)
    requires Inv(s) && product in s.products && s.products[product].policy == Default
    ensures CutBump(s, product) ==
      Highest(OwnLevels(s, product).Values + if DependsOnUnversioned(s, product) then {Minor} else {})
  {
    hide Inv, ActiveComponents, ProductEdges, RemovedAny, ClassifyChange;
    NothingIsRemoved(s, product);
    ActiveIffVersioned(s, product);
    EdgesStayInProduct(s, product);
    var own, edges := OwnLevels(s, product), ProductEdges(s.dependencies, product);
    assert own.Keys == ActiveComponents(s, product);
    assert Dangles(own, edges) <==> DependsOnUnversioned(s, product);
    var terms := own.Values + if Dangles(own, edges) then {Minor} else {};
    assert terms + {} == terms;
  }

  /** No active component has changed since the latest release. */
  ghost predicate NothingChanged(s: Store, product: Id) {
    forall c :: c in OwnLevels(s, product) ==> OwnLevels(s, product)[c] == NoBump
  }

  lemma UnchangedBumpIff(s: Store, product: Id)
    requires Inv(s) && product in s.products && s.products[product].policy == Default && NothingChanged(s, product)
    ensures CutBump(s, product) == if DependsOnUnversioned(s, product) then Minor else NoBump
  {
    hide Inv, OwnLevels, CutBump, DependsOnUnversioned;
    CutBumpFormula(s, product);
    assert forall l :: l in OwnLevels(s, product).Values ==> l == NoBump;
  }

  /**
   * Re-cutting with nothing changed stores the same product version again iff no edge leads to an
   * unversioned component; otherwise it stores a version with the minor bumped.
   */
  lemma UnchangedRecutIff(s: Store, c: Command, s': Store, o: Outcome)
    requires Inv(s) && c.Cut? && Next(s, c, s', o) && o == Released(c.id, true)
    requires s.products[c.product].policy == Default && NothingChanged(s, c.product)
    ensures |s'.releases| == |s.releases| + 1
    ensures var before, stored := VersionBefore(s.products, s.releases, c.product), s'.releases[|s.releases|].version;
      && (stored == before <==> !DependsOnUnversioned(s, c.product))
      && (DependsOnUnversioned(s, c.product) ==> ApplyBump(before, Minor) == Ok(stored))
  {
    UnchangedBumpIff(s, c.product);
    CutStores(s, c, s', o);
    hide Inv, CutBump, DependsOnUnversioned, NothingChanged, Next, ApplyBump;
    var before := VersionBefore(s.products, s.releases, c.product);
    BumpSemantics(before, CutBump(s, c.product));
    if DependsOnUnversioned(s, c.product) {
      BumpIsMonotone(before, Minor);
    }
    assert ApplyBump(before, NoBump) == Ok(before);
  }

  lemma CutStores(s: Store, c: Command, s': Store, o: Outcome)
    requires Inv(s) && c.Cut? && Next(s, c, s', o) && o == Released(c.id, true)
    ensures c.product in s.products && |s'.releases| == |s.releases| + 1
    ensures ApplyBump(VersionBefore(s.products, s.releases, c.product), CutBump(s, c.product))
         == Ok(s'.releases[|s.releases|].version)
  {
    hide Inv, CutBump, ApplyBump, ActiveComponents, CutPins, CutRationale;
  }

  // ----- Releases never change -----

  datatype ManifestRow = ManifestRow(component: Id, name: string, version: Id, number: VersionNumber,
                                     level: Option<BumpLevel>)

  datatype LoadedRelease = LoadedRelease(row: Release, manifest: set<ManifestRow>)

  /** The join of a release's pins with their components and versions. */
  ghost function Manifest(s: Store, release: Id): set<ManifestRow> {
    set pin | pin in s.pins && pin.release == release && pin.component in s.components && pin.version in s.versions ::
      ManifestRow(pin.component, s.components[pin.component].name, pin.version, s.versions[pin.version].number,
                  pin.level)
  }

  /** The manifest lists this version of this component. */
  ghost predicate Shows(manifest: set<ManifestRow>, component: Id, version: Id) {
    exists m :: m in manifest && m.component == component && m.version == version
  }

  ghost predicate PinsVersion(pins: set<Pin>, release: Id, component: Id, version: Id) {
    exists pin :: pin in pins && pin.release == release && pin.component == component && pin.version == version
  }

  ghost predicate IsReleased(s: Store, id: Id) {
    exists r :: r in s.releases && r.id == id
  }

  ghost function Load(s: Store, id: Id): LoadedRelease
    requires IsReleased(s, id)
  {
    var row :| row in s.releases && row.id == id;
    LoadedRelease(row, Manifest(s, id))
  }

  /** A cut freezes exactly the active composition: one row per component, pinning its active version. */
  lemma CutFreezesActive(s: Store, c: Command, s': Store, o: Outcome, component: Id, version: Id)
    requires Inv(s) && c.Cut? && Next(s, c, s', o) && o == Released(c.id, true)
    ensures Shows(Manifest(s', c.id), component, version) <==>
      component in s.components && s.components[component].product == c.product &&
      IsActive(s.versions, component, version)
  {
    hide Inv, CutBump, CutRationale, CutLevel, OwnLevels;
    NextKeepsInv(s, c, s', o);
    ManifestMembers(s', c.id, component, version);
    PinsOfNewRelease(s, c, s', component, version);
    ActiveIsUnique(s, component, version);
  }

  lemma ManifestMembers(s: Store, release: Id, component: Id, version: Id)
    requires Inv(s)
    ensures Shows(Manifest(s, release), component, version) <==> PinsVersion(s.pins, release, component, version)
  {
    hide LedgerOk, DependenciesOk, SingleActive, ReleasesOk;
    if PinsVersion(s.pins, release, component, version) {
      var pin :| pin in s.pins && pin.release == release && pin.component == component && pin.version == version;
      assert PinOk(s.components, s.versions, s.releases, pin);
      assert ManifestRow(component, s.components[component].name, version, s.versions[version].number,
                         pin.level) in Manifest(s, release);
    }
  }

  lemma PinsOfNewRelease(s: Store, c: Command, s': Store, component: Id, version: Id)
    requires Inv(s) && c.Cut? && FreshId(s, c) && c.product in s.products
    requires s'.pins == s.pins + CutPins(s, c.id, c.product)
    ensures PinsVersion(s'.pins, c.id, component, version) <==>
      component in ActiveComponents(s, c.product) && version == ActiveOf(s.versions, component)
  {
    hide Inv, CutPins, CutLevel;
    forall pin | pin in s'.pins && pin.release == c.id
      ensures pin.component in ActiveComponents(s, c.product) && pin.version == ActiveOf(s.versions, pin.component)
    {
      if pin in s.pins { NoPinYet(s, c.id, pin); }
      CutPinsAre(s, c.id, c.product, pin);
    }
    if component in ActiveComponents(s, c.product) {
      var pin := Pin(c.id, component, ActiveOf(s.versions, component), CutLevel(s, c.product, component));
      CutPinsAre(s, c.id, c.product, pin);
      assert pin in s'.pins;
    }
  }

  lemma ActiveIsUnique(s: Store, component: Id, version: Id)
    requires Inv(s)
    ensures IsActive(s.versions, component, version) <==>
      HasActive(s.versions, component) && version == ActiveOf(s.versions, component)
  {
  }

  lemma ManifestKept(s: Store, s': Store, row: Release)
    requires Inv(s) && Extends(s, s') && row in s.releases
    ensures Manifest(s', row.id) == Manifest(s, row.id)
  {
    hide LedgerOk, DependenciesOk, SingleActive, ReleasesOk;
    assert forall pin :: pin in s.pins ==> PinOk(s.components, s.versions, s.releases, pin);
    assert forall pin :: pin in s.pins && pin.release == row.id <==> pin in s'.pins && pin.release == row.id;
    forall m
      ensures m in Manifest(s', row.id) <==> m in Manifest(s, row.id)
    {
      if m in Manifest(s', row.id) {
        var pin :| pin in s'.pins && pin.release == row.id
          && pin.component in s'.components && pin.version in s'.versions
          && m == ManifestRow(pin.component, s'.components[pin.component].name, pin.version,
                              s'.versions[pin.version].number, pin.level);
        assert pin in s.pins && PinOk(s.components, s.versions, s.releases, pin);
      }
      if m in Manifest(s, row.id) {
        var pin :| pin in s.pins && pin.release == row.id && pin.component in s.components && pin.version in s.versions
          && m == ManifestRow(pin.component, s.components[pin.component].name, pin.version,
                              s.versions[pin.version].number, pin.level);
        assert pin in s'.pins;
      }
    }
  }

  /** Once cut, a release loads as the same row with the same manifest at every later time. */
  lemma ReleaseNeverChanges(r: Run, i: nat, j: nat, id: Id)
    requires IsRun(r) && i <= j < |r.states| && IsReleased(r.states[i], id)
    ensures IsReleased(r.states[j], id) && Load(r.states[j], id) == Load(r.states[i], id)
  {
    hide IsRun;
    var s, s' := r.states[i], r.states[j];
    HistoryOnlyGrows(r, i, j);
    EveryStateHoldsInv(r, i);
    EveryStateHoldsInv(r, j);
    var row := Load(s, id).row;
    assert row in s'.releases;
    SameReleaseId(s'.products, s'.releases, row, Load(s', id).row);
    ManifestKept(s, s', row);
  }

  /**
   * Loading a release at any time after its cut shows exactly the composition that was active when it
   * was cut: a component and version are listed iff that version was then active in the product.
   */
  lemma LoadShowsActiveAtCut(r: Run, i: nat, j: nat, component: Id, version: Id)
    requires IsRun(r) && i < j < |r.states|
    requires r.commands[i].Cut? && r.outcomes[i] == Released(r.commands[i].id, true)
    ensures IsReleased(r.states[j], r.commands[i].id)
    ensures var (s, c) := (r.states[i], r.commands[i]);
      Shows(Load(r.states[j], c.id).manifest, component, version) <==>
      component in s.components && s.components[component].product == c.product &&
      IsActive(s.versions, component, version)
  {
    hide Inv, Manifest, CutStep;
    assert Step(r, i);
    EveryStateHoldsInv(r, i);
    CutSteps(r, i);
    CutIsReleased(r.states[i], r.commands[i], r.states[i + 1], r.outcomes[i]);
    ReleaseNeverChanges(r, i + 1, j, r.commands[i].id);
    hide IsRun;
    CutFreezesActive(r.states[i], r.commands[i], r.states[i + 1], r.outcomes[i], component, version);
  }

  lemma CutIsReleased(s: Store, c: Command, s': Store, o: Outcome)
    requires c.Cut? && CutStep(s, c, s', o) && o == Released(c.id, true)
    ensures IsReleased(s', c.id)
  {
    assert s'.releases[|s.releases|].id == c.id && s'.releases[|s.releases|] in s'.releases;
  }

  /** Every recorded change level can be re-derived, at any time, from the two pinned versions. */
  lemma ChangeLevelRederivable(r: Run, j: nat, k: nat, pin: Pin)
    requires IsRun(r) && j < |r.states|
    requires k < |r.states[j].releases| && pin in r.states[j].pins && pin.release == r.states[j].releases[k].id
    ensures var s := r.states[j]; var release := s.releases[k];
      && release.product in s.products && pin.version in s.versions
      && pin.level == if s.products[release.product].policy != Default then None else
           Some(ClassifyChange(
             PinnedNumber(s.versions, s.pins, Latest(s.releases[..k], release.product), pin.component),
             s.versions[pin.version].number))
  {
    hide IsRun, SingleActive, PinsOk, DependenciesOk, PinnedNumber;
    EveryStateHoldsInv(r, j);
    var s := r.states[j];
    var release := s.releases[k];
    assert LedgerEntry(s.products, s.versions, s.pins, s.releases[..k], release);
    assert PinDerivable(s.products[release.product].policy, s.versions, s.pins,
                        Latest(s.releases[..k], release.product), release, pin);
  }

  /**
   * At any later time, the explanation a default-policy release recorded still matches it: its bump is
   * the release's and the highest effective level, and its own levels are exactly the manifest's.
   */
  lemma RationaleMatchesRelease(r: Run, j: nat, k: nat)
    requires IsRun(r) && j < |r.states| && k < |r.states[j].releases|
    ensures var s := r.states[j]; var release := s.releases[k];
      && release.product in s.products
      && (release.rationale.Some? <==> s.products[release.product].policy == Default)
      && (release.rationale.Some? ==> Explains(release.rationale.value, s.pins, release))
  {
    hide IsRun, SingleActive, PinsOk, DependenciesOk, PinDerivable;
    EveryStateHoldsInv(r, j);
    var s := r.states[j];
    assert LedgerEntry(s.products, s.versions, s.pins, s.releases[..k], s.releases[k]);
  }

  // ----- Idempotency -----

  lemma CutLeavesKey(s: Store, c: Command, s': Store, o: Outcome)
    requires c.Cut? && c.key.Some? && CutStep(s, c, s', o) && o.Released?
    ensures exists row :: row in s'.releases && IsReplay(row, c.product, c.key) && row.id == o.release
  {
  }

  lemma KeyIsUnique(products: map<Id, Product>, rs: seq<Release>, a: Release, b: Release, product: Id,
                    key: Option<string>)
    requires ReleasesOk(products, rs) && a in rs && b in rs
    requires IsReplay(a, product, key) && IsReplay(b, product, key)
    ensures a == b
  {
  }

  /** At no point of any run do two releases of a product carry the same key. */
  lemma OneReleasePerKey(r: Run, i: nat, a: Release, b: Release, product: Id, key: Option<string>)
    requires IsRun(r) && i < |r.states| && a in r.states[i].releases && b in r.states[i].releases
    requires IsReplay(a, product, key) && IsReplay(b, product, key)
    ensures a == b
  {
    hide IsRun;
    EveryStateHoldsInv(r, i);
    KeyIsUnique(r.states[i].products, r.states[i].releases, a, b, product, key);
  }

  /** Command `j` repeats the idempotency key of the successful cut `i`. */
  ghost predicate RepeatsKey(r: Run, i: nat, j: nat)
    requires i < j < |r.commands| == |r.outcomes|
  {
    && r.commands[i].Cut? && r.commands[j].Cut?
    && r.commands[i].product == r.commands[j].product
    && r.commands[i].key.Some? && r.commands[i].key == r.commands[j].key
    && r.outcomes[i].Released?
  }

  /**
   * Repeating the idempotency key of a successful cut, however many commands later, reports the
   * very same release as not created and leaves the store unchanged.
   */
  lemma RepeatedKeyReplays(r: Run, i: nat, j: nat)
    requires IsRun(r) && i < j < |r.commands| && RepeatsKey(r, i, j)
    ensures r.outcomes[j] == Released(r.outcomes[i].release, false)
    ensures r.states[j + 1] == r.states[j]
  {
    CutSteps(r, j);
    var row := CutRowPersists(r, i, j);
    EveryStateHoldsInv(r, j);
    hide IsRun, Inv, CutStep;
    ReplayIsForced(r.states[j], r.commands[j], r.states[j + 1], r.outcomes[j], row);
  }

  /** The replayed release loads exactly as it did when it was cut. */
  lemma RepeatedKeyLoadsTheSame(r: Run, i: nat, j: nat)
    requires IsRun(r) && i < j < |r.commands| && RepeatsKey(r, i, j)
    ensures IsReleased(r.states[i + 1], r.outcomes[i].release) && IsReleased(r.states[j + 1], r.outcomes[i].release)
    ensures Load(r.states[j + 1], r.outcomes[i].release) == Load(r.states[i + 1], r.outcomes[i].release)
  {
    var row := CutRowPersists(r, i, j);
    ReleaseNeverChanges(r, i + 1, j + 1, r.outcomes[i].release);
  }

  lemma CutSteps(r: Run, i: nat)
    requires IsRun(r) && i < |r.commands| && r.commands[i].Cut?
    ensures CutStep(r.states[i], r.commands[i], r.states[i + 1], r.outcomes[i])
  {
    assert Step(r, i);
  }

  /** The row behind a successful keyed cut is still there later. */
  lemma CutRowPersists(r: Run, i: nat, j: nat) returns (row: Release)
    requires IsRun(r) && i < j < |r.states|
    requires r.commands[i].Cut? && r.commands[i].key.Some? && r.outcomes[i].Released?
    ensures row in r.states[i + 1].releases && row in r.states[j].releases
    ensures IsReplay(row, r.commands[i].product, r.commands[i].key) && row.id == r.outcomes[i].release
    ensures IsReleased(r.states[i + 1], row.id)
  {
    CutSteps(r, i);
    hide IsRun;
    var c := r.commands[i];
    CutLeavesKey(r.states[i], c, r.states[i + 1], r.outcomes[i]);
    row :| row in r.states[i + 1].releases && IsReplay(row, c.product, c.key) && row.id == r.outcomes[i].release;
    HistoryOnlyGrows(r, i + 1, j);
  }

  lemma ReplayIsForced(s: Store, c: Command, s': Store, o: Outcome, row: Release)
    requires Inv(s) && c.Cut? && CutStep(s, c, s', o)
    requires row in s.releases && IsReplay(row, c.product, c.key)
    ensures o == Released(row.id, false) && s' == s
  {
    hide LedgerOk, PinsOk, DependenciesOk, SingleActive, CutBump, CutPins, CutRationale, ActiveComponents;
    var i :| 0 <= i < |s.releases| && s.releases[i] == row;
    assert c.product in s.products;
    forall other | other in s.releases && IsReplay(other, c.product, c.key)
      ensures other == row
    {
      KeyIsUnique(s.products, s.releases, other, row, c.product, c.key);
    }
  }

  // ----- Product versions -----

  lemma {:induction false} LatestBefore(rs: seq<Release>, i: nat, product: Id) returns (k: int)
    requires i <= |rs|
    ensures -1 <= k < i
    ensures k >= 0 ==> rs[k].product == product && Latest(rs[..i], product) == Some(rs[k])
    ensures k == -1 ==> Latest(rs[..i], product).None?
    ensures forall m :: k < m < i ==> rs[m].product != product
    decreases i
  {
    if i == 0 {
      k := -1;
    } else {
      assert rs[..i][..i - 1] == rs[..i - 1];
      if rs[i - 1].product == product {
        k := i - 1;
      } else {
        k := LatestBefore(rs, i - 1, product);
      }
    }
  }

  /** From a parseable base version, every stored product version parses and is its predecessor bumped. */
  lemma {:induction false} StoredVersionParses(s: Store, i: nat)
    requires Inv(s) && i < |s.releases|
    requires Parses(s.products[s.releases[i].product].baseVersion)
    ensures Parses(s.releases[i].version)
    ensures var before := VersionBefore(s.products, s.releases[..i], s.releases[i].product);
      && Parses(before)
      && CoreAtMost(CoreOf(before), CoreOf(s.releases[i].version))
      && (CoreLess(CoreOf(before), CoreOf(s.releases[i].version)) <==> s.releases[i].bump != NoBump)
    decreases i
  {
    hide Parses, CoreOf, ApplyBump, PinsOk, DependenciesOk, SingleActive, PinDerivable;
    var r := s.releases[i];
    assert LedgerEntry(s.products, s.versions, s.pins, s.releases[..i], r);
    var k := LatestBefore(s.releases, i, r.product);
    if k >= 0 {
      StoredVersionParses(s, k);
    }
    BumpIsMonotone(VersionBefore(s.products, s.releases[..i], r.product), r.bump);
  }

  /** Some release of the product after `a`, up to and including `b`, recorded a change. */
  ghost predicate ChangedBetween(s: Store, a: nat, b: nat)
    requires a <= b < |s.releases|
  {
    exists m :: a < m <= b && s.releases[m].product == s.releases[a].product && s.releases[m].bump != NoBump
  }

  /** Along a product's releases, versions never decrease and move exactly when a change is recorded. */
  lemma {:induction false} ProductVersionsMonotone(s: Store, a: nat, b: nat)
    requires Inv(s) && a <= b < |s.releases| && s.releases[a].product == s.releases[b].product
    requires Parses(s.products[s.releases[a].product].baseVersion)
    ensures Parses(s.releases[a].version) && Parses(s.releases[b].version)
    ensures CoreAtMost(CoreOf(s.releases[a].version), CoreOf(s.releases[b].version))
    ensures CoreLess(CoreOf(s.releases[a].version), CoreOf(s.releases[b].version)) <==> ChangedBetween(s, a, b)
    decreases b
  {
    hide Parses, CoreOf, Inv;
    StoredVersionParses(s, a);
    StoredVersionParses(s, b);
    if a < b {
      var k := LatestBefore(s.releases, b, s.releases[b].product);
      assert k >= a;
      ProductVersionsMonotone(s, a, k);
      assert ChangedBetween(s, a, b) <==> ChangedBetween(s, a, k) || s.releases[b].bump != NoBump;
    }
  }

  // ----- Component sets and recorded levels -----

  /** Each release's component set contains its predecessors'. */
  lemma {:induction false} PinnedComponentsGrow(s: Store, a: nat, b: nat, c: Id)
    requires Inv(s) && a <= b < |s.releases| && s.releases[a].product == s.releases[b].product
    requires IsPinned(s.pins, s.releases[a].id, c)
    ensures IsPinned(s.pins, s.releases[b].id, c)
    decreases b
  {
    hide IsPinned, PinsOk, DependenciesOk, SingleActive, PinDerivable, ApplyBump;
    if a < b {
      var k := LatestBefore(s.releases, b, s.releases[b].product);
      assert k >= a;
      PinnedComponentsGrow(s, a, k, c);
      assert LedgerEntry(s.products, s.versions, s.pins, s.releases[..b], s.releases[b]);
    }
  }

  /** The change levels release `m` of this product recorded for `c` are at most `bound`. */
  ghost predicate RecordedAtMost(s: Store, product: Id, m: nat, c: Id, bound: BumpLevel)
    requires m < |s.releases|
  {
    s.releases[m].product == product ==>
      forall pin :: pin in s.pins && pin.release == s.releases[m].id && pin.component == c && pin.level.Some?
        ==> AtMost(pin.level.value, bound)
  }

  /**
   * The change between the versions any two releases pin for a component is at most the largest
   * change level recorded for it in between.
   */
  lemma {:induction false} EndToEndLevelBounded(s: Store, a: nat, b: nat, c: Id, bound: BumpLevel)
    requires Inv(s) && a <= b < |s.releases| && s.releases[a].product == s.releases[b].product
    requires s.products[s.releases[a].product].policy == Default
    requires IsPinned(s.pins, s.releases[a].id, c)
    requires forall m :: a < m <= b ==> RecordedAtMost(s, s.releases[a].product, m, c, bound)
    ensures var from, to := PinnedNumber(s.versions, s.pins, Some(s.releases[a]), c),
                            PinnedNumber(s.versions, s.pins, Some(s.releases[b]), c);
      from.Some? && to.Some? && AtMost(Distance(from.value, to.value), bound)
    decreases b
  {
    hide Inv, IsPinned, ClassifyChange;
    PinnedComponentsGrow(s, a, b, c);
    PinnedHasNumber(s, s.releases[a], c);
    PinnedHasNumber(s, s.releases[b], c);
    if a == b {
      var n := PinnedNumber(s.versions, s.pins, Some(s.releases[a]), c).value;
      DistanceIsUltrametric(n, n, n);
    } else {
      var product := s.releases[b].product;
      var k := LatestBefore(s.releases, b, product);
      assert k >= a;
      EndToEndLevelBounded(s, a, k, c, bound);
      PinnedComponentsGrow(s, a, k, c);
      LastStepRecorded(s, k, b, c);
      assert RecordedAtMost(s, product, b, c, bound);
      DistanceIsUltrametric(PinnedNumber(s.versions, s.pins, Some(s.releases[a]), c).value,
                            PinnedNumber(s.versions, s.pins, Some(s.releases[k]), c).value,
                            PinnedNumber(s.versions, s.pins, Some(s.releases[b]), c).value);
    }
  }

  lemma PinnedHasNumber(s: Store, r: Release, c: Id)
    requires Inv(s) && r in s.releases && IsPinned(s.pins, r.id, c)
    ensures PinOf(s.pins, r.id, c).version in s.versions
    ensures PinnedNumber(s.versions, s.pins, Some(r), c)
         == Some(s.versions[PinOf(s.pins, r.id, c).version].number)
  {
    hide LedgerOk, DependenciesOk, SingleActive;
    assert PinOk(s.components, s.versions, s.releases, PinOf(s.pins, r.id, c));
  }

  lemma LastStepRecorded(s: Store, k: nat, b: nat, c: Id)
    requires Inv(s) && k < b < |s.releases| && s.products[s.releases[b].product].policy == Default
    requires Latest(s.releases[..b], s.releases[b].product) == Some(s.releases[k])
    requires IsPinned(s.pins, s.releases[k].id, c) && IsPinned(s.pins, s.releases[b].id, c)
    ensures var lo, hi := PinnedNumber(s.versions, s.pins, Some(s.releases[k]), c),
                          PinnedNumber(s.versions, s.pins, Some(s.releases[b]), c);
      lo.Some? && hi.Some? && PinOf(s.pins, s.releases[b].id, c).level == Some(Distance(lo.value, hi.value))
  {
    hide DependenciesOk, SingleActive, PinsOk, ApplyBump, ClassifyChange;
    PinnedHasNumber(s, s.releases[k], c);
    PinnedHasNumber(s, s.releases[b], c);
    var r := s.releases[b];
    assert LedgerEntry(s.products, s.versions, s.pins, s.releases[..b], r);
    assert PinDerivable(Default, s.versions, s.pins, Some(s.releases[k]), r, PinOf(s.pins, r.id, c));
  }
}

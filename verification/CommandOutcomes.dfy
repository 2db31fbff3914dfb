/** What each command answers and stores, said on the tables alone. */
module CommandOutcomes {
  import opened Common
  import opened BumpLevels
  import opened ChangeClassifier
  import opened DependencyGraph
  import opened BumpPropagation
  import opened ProductVersion
  import opened Store
  import opened StoreInvariant
  import opened StoreSteps
  import opened RegistryRuns

  // ----- Creating a version -----

  /** A create succeeds iff its component exists; it adds one row and supersedes that component's active ones. */
  lemma CreateVersionOutcome(s: Store, c: Command, s': Store, o: Outcome)
    requires c.CreateVersion? && Next(s, c, s', o)
    ensures o == if c.component in s.components then Created else Failed(ComponentNotFound)
    ensures o != Created ==> s' == s
    ensures o == Created ==>
      && s' == s.(versions := s'.versions)
      && s'.versions.Keys == s.versions.Keys + {c.id}
      && s'.versions[c.id] == Version(c.component, c.number, Active)
      && forall v :: v in s.versions ==>
        s'.versions[v] == Version(s.versions[v].component, s.versions[v].number,
                                  if s.versions[v].component == c.component && s.versions[v].status == Active
                                  then Superseded else s.versions[v].status)
  {
  }

  // ----- Rolling back -----

  function NumberParts(n: VersionNumber): seq<nat> {
    [n.major, n.minor, n.patch]
  }

  /** The first part that differs is smaller. */
  ghost predicate Precedes(a: VersionNumber, b: VersionNumber) {
    exists i :: 0 <= i < 3 && NumberParts(a)[i] < NumberParts(b)[i] && NumberParts(a)[..i] == NumberParts(b)[..i]
  }

  lemma PrecedesIsCoreLess(a: VersionNumber, b: VersionNumber)
    ensures Precedes(a, b) <==> CoreLess(CoreNumber(a), CoreNumber(b))
  {
    var x, y := NumberParts(a), NumberParts(b);
    assert x[..0] == y[..0];
    assert x[..1] == y[..1] <==> x[0] == y[0];
    assert x[..2] == y[..2] <==> x[0] == y[0] && x[1] == y[1];
  }

  /** A version of the same component, not rolled back, and strictly below the target. */
  ghost predicate CanReplace(vs: map<Id, Version>, target: Id, w: Id)
    requires target in vs
  {
    && w in vs && vs[w].component == vs[target].component && vs[w].status != RolledBack
    && Precedes(vs[w].number, vs[target].number)
  }

  lemma CanReplaceIsCandidate(vs: map<Id, Version>, target: Id)
    requires target in vs
    ensures forall w :: CanReplace(vs, target, w) <==> IsCandidate(vs, target, w)
  {
    hide Precedes;
    forall w | w in vs
      ensures Precedes(vs[w].number, vs[target].number)
        <==> CoreLess(CoreNumber(vs[w].number), CoreNumber(vs[target].number))
    {
      PrecedesIsCoreLess(vs[w].number, vs[target].number);
    }
  }

  /** A rollback succeeds iff the target exists and a version below it stands; it re-activates a highest one. */
  lemma RollbackOutcome(s: Store, c: Command, s': Store, o: Outcome)
    requires c.Rollback? && Next(s, c, s', o)
    ensures o == Failed(VersionNotFound) <==> c.target !in s.versions
    ensures c.target in s.versions ==>
      (o == Failed(NoPriorVersion) <==> forall w :: !CanReplace(s.versions, c.target, w))
    ensures o.Failed? ==> s' == s
    ensures o.Failed? || o.Reactivated?
    ensures o.Reactivated? && c.target in s.versions ==>
      && CanReplace(s.versions, c.target, o.version)
      && forall w :: CanReplace(s.versions, c.target, w) ==>
        !Precedes(s.versions[o.version].number, s.versions[w].number)
  {
    hide Precedes, CanReplace, RolledBackTo;
    if c.target in s.versions {
      CanReplaceIsCandidate(s.versions, c.target);
      if o.Reactivated? {
        forall w | CanReplace(s.versions, c.target, w)
          ensures !Precedes(s.versions[o.version].number, s.versions[w].number)
        {
          PrecedesIsCoreLess(s.versions[o.version].number, s.versions[w].number);
        }
      }
    }
  }

  /** What a successful rollback writes: the status of each row of the component, and nothing else. */
  lemma RollbackWrites(s: Store, c: Command, s': Store, o: Outcome)
    requires c.Rollback? && Next(s, c, s', o) && o.Reactivated?
    ensures c.target in s.versions && o.version in s.versions && o.version != c.target
    ensures s' == s.(versions := s'.versions) && s'.versions.Keys == s.versions.Keys
    ensures forall v :: v in s.versions ==>
      s'.versions[v] == Version(s.versions[v].component, s.versions[v].number,
                                if v == c.target then RolledBack
                                else if v == o.version then Active
                                else if s.versions[v].component == s.versions[c.target].component
                                        && s.versions[v].status == Active then Superseded
                                else s.versions[v].status)
  {
  }

  // ----- Dependencies -----

  predicate InProduct(s: Store, product: Id, component: Id) {
    component in s.components && s.components[component].product == product
  }

  lemma ProductEdgesAre(ds: map<Id, Dependency>, product: Id, edge: Edge)
    ensures edge in ProductEdges(ds, product) <==> exists i :: i in ds && ds[i] == Dependency(product, edge)
  {
    if edge in ProductEdges(ds, product) {
      var i :| i in ds && ds[i].product == product && ds[i].edge == edge;
      assert ds[i] == Dependency(product, edge);
    }
  }

  /** The product's edges together with a new one. */
  function WithEdge(s: Store, product: Id, edge: Edge): set<Edge> {
    ProductEdges(s.dependencies, product) + {edge}
  }

  /**
   * An edge is added iff the product exists, both ends are its components, the edge is not stored yet
   * and the graph stays acyclic with it; a new row holds it and nothing else changes.
   */
  lemma AddDependencyOutcome(s: Store, c: Command, s': Store, o: Outcome)
    requires Inv(s) && c.AddDependency? && Next(s, c, s', o)
    ensures o == Created <==>
      && c.product in s.products
      && EndsInProduct(s, c.product, c.edge)
      && !IsStored(s, c.product, c.edge)
      && Acyclic(WithEdge(s, c.product, c.edge))
    ensures o == Created ==> s' == s.(dependencies := s.dependencies[c.id := Dependency(c.product, c.edge)])
    ensures o != Created ==> o.Failed? && s' == s
  {
    hide Inv, Acyclic, Reaches;
    ProductEdgesAre(s.dependencies, c.product, c.edge);
    if DependencyError(s, c.product, c.edge).None? || DependencyError(s, c.product, c.edge) == Some(CyclicDependency) {
      RefusedAsCycleIff(s, c.product, c.edge);
    }
    if c.edge.dependent == c.edge.dependency {
      SelfEdgeIsCycle(WithEdge(s, c.product, c.edge), c.edge);
    }
  }

  lemma SelfEdgeIsCycle(edges: set<Edge>, e: Edge)
    requires e in edges && e.dependent == e.dependency
    ensures !Acyclic(edges)
  {
    EdgeIsDependency(edges, e.dependent, e.dependency);
  }

  predicate EndsInProduct(s: Store, product: Id, edge: Edge) {
    InProduct(s, product, edge.dependent) && InProduct(s, product, edge.dependency)
  }

  ghost predicate IsStored(s: Store, product: Id, edge: Edge) {
    exists i :: i in s.dependencies && s.dependencies[i] == Dependency(product, edge)
  }

  /** The answer to a refused edge: the first check that fails, in the order the checks are made. */
  lemma RefusedDependency(s: Store, c: Command, s': Store, o: Outcome)
    requires Inv(s) && c.AddDependency? && Next(s, c, s', o) && o != Created
    ensures o == Failed(
      if c.product !in s.products then ProductNotFound
      else if c.edge.dependent !in s.components then ComponentNotFound
      else if !InProduct(s, c.product, c.edge.dependent) then ForeignComponent
      else if c.edge.dependency !in s.components then ComponentNotFound
      else if !InProduct(s, c.product, c.edge.dependency) then ForeignComponent
      else if c.edge.dependent == c.edge.dependency then SelfDependency
      else if IsStored(s, c.product, c.edge) then DuplicateDependency
      else CyclicDependency)
    ensures o == Failed(CyclicDependency) ==> !Acyclic(WithEdge(s, c.product, c.edge))
  {
    hide Inv, Acyclic, Reaches;
    ProductEdgesAre(s.dependencies, c.product, c.edge);
    if DependencyError(s, c.product, c.edge) == Some(CyclicDependency) {
      RefusedAsCycleIff(s, c.product, c.edge);
    }
  }

  /** A removal succeeds iff the edge is stored; exactly that edge of that product goes, and no other product's. */
  lemma RemoveDependencyOutcome(s: Store, c: Command, s': Store, o: Outcome)
    requires Inv(s) && c.RemoveDependency? && Next(s, c, s', o)
    ensures o.Removed? <==> IsStored(s, c.product, c.edge)
    ensures !o.Removed? ==> o == Failed(DependencyNotFound) && s' == s
    ensures o.Removed? ==>
      && s' == s.(dependencies := s'.dependencies)
      && (forall i :: i in s'.dependencies <==>
            i in s.dependencies && s.dependencies[i] != Dependency(c.product, c.edge))
      && (forall i :: i in s'.dependencies ==> s'.dependencies[i] == s.dependencies[i])
  {
    hide SingleActive, ReleasesOk, PinsOk, LedgerOk, Acyclic;
    ProductEdgesAre(s.dependencies, c.product, c.edge);
  }

  /** So the edges left are the product's others, and every other product keeps its own. */
  lemma RemovedEdgeIsGone(s: Store, c: Command, s': Store, o: Outcome, product: Id)
    requires Inv(s) && c.RemoveDependency? && Next(s, c, s', o) && o.Removed?
    ensures ProductEdges(s'.dependencies, product) ==
      ProductEdges(s.dependencies, product) - if product == c.product then {c.edge} else {}
  {
    RemoveDependencyOutcome(s, c, s', o);
    hide Inv, Next, ProductEdges;
    forall e
      ensures e in ProductEdges(s'.dependencies, product) <==>
        e in ProductEdges(s.dependencies, product) && !(product == c.product && e == c.edge)
    {
      ProductEdgesAre(s.dependencies, product, e);
      ProductEdgesAre(s'.dependencies, product, e);
    }
  }

  // ----- Cutting a release -----

  /** Some release of the product carries the command's key. */
  ghost predicate KeyIsUsed(s: Store, c: Command)
    requires c.Cut?
  {
    exists r :: r in s.releases && r.product == c.product && c.key.Some? && r.key == c.key
  }

  /** Some component of the product has an active version. */
  ghost predicate HasActiveVersion(s: Store, product: Id) {
    exists v :: v in s.versions && s.versions[v].status == Active && InProduct(s, product, s.versions[v].component)
  }

  lemma ActiveComponentsIff(s: Store, product: Id)
    ensures ActiveComponents(s, product) != {} <==> HasActiveVersion(s, product)
  {
    if HasActiveVersion(s, product) {
      var v :| v in s.versions && s.versions[v].status == Active && InProduct(s, product, s.versions[v].component);
      assert IsActive(s.versions, s.versions[v].component, v);
      assert s.versions[v].component in ActiveComponents(s, product);
    }
    if ActiveComponents(s, product) != {} {
      var component :| component in ActiveComponents(s, product);
      var v :| IsActive(s.versions, component, v);
      assert InProduct(s, product, s.versions[v].component);
    }
  }

  /** A bump can fail only on the first cut: later ones start from a stored version, which parses. */
  lemma VersionFailsIff(s: Store, product: Id)
    requires Inv(s) && product in s.products && ActiveComponents(s, product) != {}
    ensures ApplyBump(VersionBefore(s.products, s.releases, product), CutBump(s, product)).Err? <==>
      !Parses(s.products[product].baseVersion)
  {
    hide CutBump, ActiveComponents, ApplyBump, Parses, CoreOf, SingleActive, PinsOk, DependenciesOk;
    var k := LatestBefore(s.releases, |s.releases|, product);
    assert s.releases[..|s.releases|] == s.releases;
    BumpSemantics(VersionBefore(s.products, s.releases, product), CutBump(s, product));
    if k == -1 {
      FirstCutIsMinor(s, product);
    } else {
      BaseOfReleasedParses(s, k);
      StoredVersionParses(s, k);
    }
  }

  /** A product that has been released has a base version that parses. */
  lemma {:induction false} BaseOfReleasedParses(s: Store, k: nat)
    requires Inv(s) && k < |s.releases|
    ensures s.releases[k].product in s.products && Parses(s.products[s.releases[k].product].baseVersion)
    decreases k
  {
    hide ApplyBump, Parses, SingleActive, PinsOk, DependenciesOk, PinDerivable, Explained;
    var r := s.releases[k];
    assert LedgerEntry(s.products, s.versions, s.pins, s.releases[..k], r);
    var before := LatestBefore(s.releases, k, r.product);
    if before >= 0 {
      BaseOfReleasedParses(s, before);
    } else {
      BumpSemantics(s.products[r.product].baseVersion, r.bump);
    }
  }

  /**
   * The answer to a cut: not found for an unknown product; the old release for a used key; refused with
   * nothing active; refused for its version iff the base version does not parse; released otherwise.
   */
  lemma CutOutcome(s: Store, c: Command, s': Store, o: Outcome)
    requires Inv(s) && c.Cut? && Next(s, c, s', o)
    ensures o == Failed(ProductNotFound) <==> c.product !in s.products
    ensures c.product in s.products ==>
      if KeyIsUsed(s, c) then
        && o.Released? && !o.created
        && exists r :: r in s.releases && r.product == c.product && r.key == c.key && r.id == o.release
      else if !HasActiveVersion(s, c.product) then o == Failed(NothingToRelease)
      else if !Parses(s.products[c.product].baseVersion) then o == Failed(BadProductVersion)
      else o == Released(c.id, true)
    ensures o != Released(c.id, true) ==> s' == s
  {
    hide Inv, ActiveComponents, CutBump, ApplyBump, CutAppends, Parses, HasActiveVersion;
    ActiveComponentsIff(s, c.product);
    if c.product in s.products && ActiveComponents(s, c.product) != {} {
      VersionFailsIff(s, c.product);
    }
  }

  /**
   * The row a successful cut stores: the command's own fields, and the version of the product's last
   * release (or its base version) bumped by the level the row records. Only releases and pins grow.
   */
  lemma CutStoresRow(s: Store, c: Command, s': Store, o: Outcome) returns (last: int)
    requires Inv(s) && c.Cut? && Next(s, c, s', o) && o == Released(c.id, true)
    ensures c.product in s.products && |s'.releases| == |s.releases| + 1
    ensures s' == s.(releases := s'.releases, pins := s'.pins) && s'.releases[..|s.releases|] == s.releases
    ensures var row := s'.releases[|s.releases|];
      && row.id == c.id && row.product == c.product
      && row.title == c.title && row.notes == c.notes && row.key == c.key
      && (s.products[c.product].policy != Default ==> row.bump == Minor)
    ensures -1 <= last < |s.releases| && (last >= 0 ==> s.releases[last].product == c.product)
    ensures forall m :: last < m < |s.releases| ==> s.releases[m].product != c.product
    ensures var row := s'.releases[|s.releases|];
      ApplyBump(if last >= 0 then s.releases[last].version else s.products[c.product].baseVersion, row.bump)
        == Ok(row.version)
  {
    hide Inv, ActiveComponents, CutBump, ApplyBump, CutPins, CutRationale;
    LegacyCutIsMinor(s, c.product);
    last := LatestBefore(s.releases, |s.releases|, c.product);
    assert s.releases[..|s.releases|] == s.releases;
  }

  /** The version a release pins for a component, read off the pins. */
  lemma PinnedNumberIff(s: Store, r: Release, component: Id, n: VersionNumber)
    requires Inv(s)
    ensures PinnedNumber(s.versions, s.pins, Some(r), component) == Some(n) <==>
      exists pin :: pin in s.pins && pin.release == r.id && pin.component == component
        && pin.version in s.versions && s.versions[pin.version].number == n
  {
    hide SingleActive, DependenciesOk, ReleasesOk, LedgerOk;
  }

  /**
   * The effective level a cut records for a component is felt along some walk of the product's edges at
   * that time, and no walk out of the component is felt more: it is the exact effect on it, not a bound.
   */
  lemma CutRecordsWalks(s: Store, c: Command, s': Store, o: Outcome)
    requires Inv(s) && c.Cut? && Next(s, c, s', o) && o == Released(c.id, true)
    ensures c.product in s.products && |s'.releases| == |s.releases| + 1 && s'.releases[|s.releases|].id == c.id
    ensures var row := s'.releases[|s.releases|];
      && (row.rationale.Some? <==> s.products[c.product].policy == Default)
      && (row.rationale.Some? ==>
            RecordsWalks(row.rationale.value, ProductEdges(s.dependencies, c.product)))
  {
    hide Inv, ActiveComponents, CutBump, ApplyBump, CutPins, OwnLevels, RemovedAny, Strongest, Carries;
    var g := Graph(OwnLevels(s, c.product), ProductEdges(s.dependencies, c.product));
    forall n
      ensures Carries(g, n, Strongest(g, n))
      ensures forall w :: IsWalk(g.edges, w) && w[0] == n ==> AtMost(Felt(g, w), Strongest(g, n))
    {
      StrongestIsMaximum(g, n);
    }
  }

  ghost predicate RecordsWalks(rationale: Rationale, edges: set<Edge>) {
    var g := Graph(rationale.own, edges);
    forall n :: n in rationale.effective ==>
      && Carries(g, n, rationale.effective[n])
      && forall w :: IsWalk(edges, w) && w[0] == n ==> AtMost(Felt(g, w), rationale.effective[n])
  }

  // ----- Over whole runs -----

  /** However much later, the release still records those levels, over the edges stored when it was cut. */
  lemma RecordedLevelsAreWalks(r: Run, i: nat, j: nat)
    requires IsRun(r) && i < j < |r.states|
    requires r.commands[i].Cut? && r.outcomes[i] == Released(r.commands[i].id, true)
    ensures var (s, c) := (r.states[i], r.commands[i]);
      && c.product in s.products && IsReleased(r.states[j], c.id)
      && var row := Load(r.states[j], c.id).row;
         && (row.rationale.Some? <==> s.products[c.product].policy == Default)
         && (row.rationale.Some? ==> RecordsWalks(row.rationale.value, ProductEdges(s.dependencies, c.product)))
  {
    hide Inv, Next, RecordsWalks, Manifest, Extends;
    var s, s', c := r.states[i], r.states[i + 1], r.commands[i];
    assert Step(r, i);
    EveryStateHoldsInv(r, i);
    EveryStateHoldsInv(r, i + 1);
    CutRecordsWalks(s, c, s', r.outcomes[i]);
    var row := s'.releases[|s.releases|];
    assert row in s'.releases;
    LoadedRowIs(s', row);
    ReleaseNeverChanges(r, i + 1, j, c.id);
  }

  lemma LoadedRowIs(s: Store, row: Release)
    requires Inv(s) && row in s.releases
    ensures IsReleased(s, row.id) && Load(s, row.id).row == row
  {
    hide SingleActive, DependenciesOk, PinsOk, LedgerOk;
    SameReleaseId(s.products, s.releases, row, Load(s, row.id).row);
  }

  /** Each row of a loaded manifest shows its component's name, its version's number, and its pin's level. */
  lemma ManifestRowsAre(s: Store, id: Id, m: ManifestRow)
    requires IsReleased(s, id) && m in Load(s, id).manifest
    ensures m.component in s.components && m.name == s.components[m.component].name
    ensures m.version in s.versions && m.number == s.versions[m.version].number
    ensures Pin(id, m.component, m.version, m.level) in s.pins
  {
  }

  /**
   * Loaded at any later time, a manifest row shows the name and the number as they were when the release
   * was cut, and the level its version was classified at then, against the product's previous release.
   */
  lemma LoadedRowsAreFromTheCut(r: Run, i: nat, j: nat, m: ManifestRow)
    requires IsRun(r) && i < j < |r.states|
    requires r.commands[i].Cut? && r.outcomes[i] == Released(r.commands[i].id, true)
    requires IsReleased(r.states[j], r.commands[i].id) && m in Load(r.states[j], r.commands[i].id).manifest
    ensures var (s, c) := (r.states[i], r.commands[i]);
      && c.product in s.products
      && m.component in s.components && m.name == s.components[m.component].name
      && m.version in s.versions && m.number == s.versions[m.version].number
      && m.level == if s.products[c.product].policy != Default then None else
           Some(ClassifyChange(
             PinnedNumber(s.versions, s.pins, Latest(s.releases, c.product), m.component), m.number))
  {
    hide Inv, Manifest, CutBump, CutRationale, ApplyBump, PinnedNumber, Latest;
    var s, s', c := r.states[i], r.states[i + 1], r.commands[i];
    assert Step(r, i);
    EveryStateHoldsInv(r, i);
    EveryStateHoldsInv(r, i + 1);
    CutRowIsReleased(s, c, s', r.outcomes[i]);
    ReleaseNeverChanges(r, i + 1, j, c.id);
    hide IsRun;
    ManifestRowsAre(s', c.id, m);
    CutRowsAre(s, c, s', r.outcomes[i], Pin(c.id, m.component, m.version, m.level));
  }

  lemma CutRowIsReleased(s: Store, c: Command, s': Store, o: Outcome)
    requires c.Cut? && Next(s, c, s', o) && o == Released(c.id, true)
    ensures IsReleased(s', c.id)
  {
    hide Inv, CutBump, CutRationale, ApplyBump, CutPins;
    if s' != s {
      assert s'.releases[|s.releases|] in s'.releases;
    }
  }

  lemma CutRowsAre(s: Store, c: Command, s': Store, o: Outcome, pin: Pin)
    requires Inv(s) && c.Cut? && Next(s, c, s', o) && o == Released(c.id, true)
    requires pin in s'.pins && pin.release == c.id
    ensures c.product in s.products && s'.components == s.components && s'.versions == s.versions
    ensures pin.version in s.versions && pin.level ==
      if s.products[c.product].policy != Default then None else
        Some(ClassifyChange(
          PinnedNumber(s.versions, s.pins, Latest(s.releases, c.product), pin.component),
          s.versions[pin.version].number))
  {
    hide Inv, CutBump, CutRationale, ApplyBump, CutPins, PinnedNumber, Latest;
    if pin in s.pins { NoPinYet(s, c.id, pin); }
    CutPinsAre(s, c.id, c.product, pin);
  }
}

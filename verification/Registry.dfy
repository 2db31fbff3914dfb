/** The registry's queries as they run against the tables, each proved to be one step of the model. */
module Registry {
  import opened Common
  import opened BumpLevels
  import opened ChangeClassifier
  import opened DependencyGraph
  import opened BumpPropagation
  import opened ProductVersion
  import opened Store
  import opened StoreInvariant
  import opened StoreSteps
  import opened RegistryRuns
  import opened Impact

  // ----- Joining what the queries read with what the step relation says -----

  /** The three updates of a rollback, in order, amount to its one-step meaning. */
  lemma ThreeUpdatesRollBack(vs: map<Id, Version>, target: Id, previous: Id)
    requires target in vs && IsCandidate(vs, target, previous)
    ensures
      var component := vs[target].component;
      var marked := vs[target := vs[target].(status := RolledBack)];
      var superseded := map v | v in marked :: Demoted(marked[v], component);
      superseded[previous := superseded[previous].(status := Active)] == RolledBackTo(vs, target, previous)
  {
  }

  /** The active rows of a product: one version for each active component. */
  function ActiveRows(s: Store, product: Id): set<Id> {
    set v | v in s.versions && s.versions[v].status == Active
      && s.versions[v].component in s.components && s.components[s.versions[v].component].product == product
  }

  lemma ActiveRowsAre(s: Store, product: Id)
    requires Inv(s)
    ensures forall v :: v in ActiveRows(s, product) ==>
      && s.versions[v].component in ActiveComponents(s, product)
      && HasActive(s.versions, s.versions[v].component) && ActiveOf(s.versions, s.versions[v].component) == v
    ensures forall c :: c in ActiveComponents(s, product) ==>
      ActiveOf(s.versions, c) in ActiveRows(s, product) && s.versions[ActiveOf(s.versions, c)].component == c
  {
    hide LedgerOk, PinsOk, DependenciesOk, ReleasesOk;
    forall v | v in ActiveRows(s, product)
      ensures s.versions[v].component in ActiveComponents(s, product)
      ensures HasActive(s.versions, s.versions[v].component) && ActiveOf(s.versions, s.versions[v].component) == v
    {
      assert IsActive(s.versions, s.versions[v].component, v);
    }
  }

  lemma NoRowsIffNothingActive(s: Store, product: Id, rows: seq<Id>)
    requires Inv(s) && forall v :: v in rows <==> v in ActiveRows(s, product)
    ensures rows == [] <==> ActiveComponents(s, product) == {}
  {
    hide Inv, ActiveComponents;
    ActiveRowsAre(s, product);
    if rows != [] {
      assert rows[0] in rows;
    }
    if ActiveComponents(s, product) != {} {
      var c :| c in ActiveComponents(s, product);
      assert ActiveOf(s.versions, c) in rows;
    }
  }

  /** The rows a prior-manifest query returns. */
  function ManifestPins(s: Store, release: Id): set<Pin> {
    set pin | pin in s.pins && pin.release == release && pin.version in s.versions
  }

  ghost predicate IsPriorManifest(s: Store, latest: Option<Release>, prior: map<Id, VersionNumber>) {
    && (forall c :: c in prior ==> PinnedNumber(s.versions, s.pins, latest, c) == Some(prior[c]))
    && (forall c :: PinnedNumber(s.versions, s.pins, latest, c).Some? ==> c in prior)
  }

  ghost predicate ReadFromManifest(s: Store, latest: Release, c: Id, number: VersionNumber) {
    exists pin :: pin in ManifestPins(s, latest.id) && pin.component == c && s.versions[pin.version].number == number
  }

  lemma ManifestIsPrior(s: Store, latest: Release, prior: map<Id, VersionNumber>)
    requires Inv(s)
    requires forall pin :: pin in ManifestPins(s, latest.id) ==> pin.component in prior
    requires forall c :: c in prior ==> ReadFromManifest(s, latest, c, prior[c])
    ensures IsPriorManifest(s, Some(latest), prior)
  {
  }

  lemma RemovedIffMissing(s: Store, product: Id, prior: map<Id, VersionNumber>)
    requires Inv(s) && IsPriorManifest(s, Latest(s.releases, product), prior)
    ensures RemovedAny(s, product) <==> exists c :: c in prior && c !in ActiveComponents(s, product)
  {
  }

  class Registry {
    var products: map<Id, Product>
    var components: map<Id, Component>
    var versions: map<Id, Version>
    var dependencies: map<Id, Dependency>
    var releases: seq<Release>
    var pins: set<Pin>

    function View(): Store
      reads this
    {
      Store(products, components, versions, dependencies, releases, pins)
    }

    constructor (products: map<Id, Product>)
      ensures Initial(View()) && Inv(View()) && View().products == products
    {
      this.products := products;
      components, versions, dependencies, releases, pins := map[], map[], map[], [], {};
      new;
      InitialHoldsInv(View());
    }

    method CreateProduct(id: Id, name: string) returns (o: Outcome)
      requires id !in products
      modifies this
      ensures Next(old(View()), Command.CreateProduct(id, name), View(), o)
      ensures old(Inv(View())) ==> Inv(View())
    {
      hide Inv;
      if exists p :: p in products && products[p].name == name {
        return Failed(ProductNameTaken);
      }
      products := products[id := Product(name, "0.0.0", Default)];
      o := Created;
      if old(Inv(View())) {
        NextKeepsInv(old(View()), Command.CreateProduct(id, name), View(), o);
      }
    }

    method CreateComponent(id: Id, product: Id, name: string) returns (o: Outcome)
      requires id !in components
      modifies this
      ensures Next(old(View()), Command.CreateComponent(id, product, name), View(), o)
      ensures old(Inv(View())) ==> Inv(View())
    {
      hide Inv;
      if product !in products {
        return Failed(ProductNotFound);
      }
      components := components[id := Component(product, name)];
      o := Created;
      if old(Inv(View())) {
        NextKeepsInv(old(View()), Command.CreateComponent(id, product, name), View(), o);
      }
    }

    method CreateVersion(id: Id, component: Id, number: VersionNumber) returns (o: Outcome)
      requires id !in versions
      modifies this
      ensures Next(old(View()), Command.CreateVersion(id, component, number), View(), o)
      ensures old(Inv(View())) ==> Inv(View())
    {
      hide Inv;
      if component !in components {
        return Failed(ComponentNotFound);
      }
      versions := map v | v in versions :: Demoted(versions[v], component);
      versions := versions[id := Version(component, number, Active)];
      o := Created;
      if old(Inv(View())) {
        NextKeepsInv(old(View()), Command.CreateVersion(id, component, number), View(), o);
      }
    }

    /** The highest standing version strictly below the target; any of them when cores tie. */
    method SelectPrevious(target: Id) returns (previous: Option<Id>)
      requires target in versions
      ensures previous.None? <==> forall w :: !IsCandidate(versions, target, w)
      ensures previous.Some? ==> IsPrevious(versions, target, previous.value)
    {
      var candidates := RowsOf(set w | w in versions && IsCandidate(versions, target, w));
      if candidates == [] {
        assert forall w :: IsCandidate(versions, target, w) ==> w in candidates;
        return None;
      }
      var best := candidates[0];
      for i := 1 to |candidates|
        invariant best in candidates
        invariant forall j :: 0 <= j < i ==> candidates[j] in versions
        invariant forall j :: 0 <= j < i ==>
          !CoreLess(CoreNumber(versions[best].number), CoreNumber(versions[candidates[j]].number))
      {
        var w := candidates[i];
        assert w in candidates;
        if CoreLess(CoreNumber(versions[best].number), CoreNumber(versions[w].number)) {
          best := w;
        }
      }
      forall x | IsCandidate(versions, target, x)
        ensures !CoreLess(CoreNumber(versions[best].number), CoreNumber(versions[x].number))
      {
        assert x in candidates;
      }
      return Some(best);
    }

    method Rollback(target: Id) returns (o: Outcome)
      modifies this
      ensures Next(old(View()), Command.Rollback(target), View(), o)
      ensures old(Inv(View())) ==> Inv(View())
    {
      hide Inv;
      if target !in versions {
        return Failed(VersionNotFound);
      }
      var previous := SelectPrevious(target);
      if previous.None? {
        return Failed(NoPriorVersion);
      }
      var component := versions[target].component;
      ThreeUpdatesRollBack(versions, target, previous.value);
      versions := versions[target := versions[target].(status := RolledBack)];
      versions := map v | v in versions :: Demoted(versions[v], component);
      versions := versions[previous.value := versions[previous.value].(status := Active)];
      o := Reactivated(previous.value);
      if old(Inv(View())) {
        NextKeepsInv(old(View()), Command.Rollback(target), View(), o);
      }
    }

    method AddDependency(id: Id, product: Id, edge: Edge) returns (o: Outcome)
      requires id !in dependencies
      modifies this
      ensures Next(old(View()), Command.AddDependency(id, product, edge), View(), o)
      ensures old(Inv(View())) ==> Inv(View())
    {
      hide Inv, Reaches, Acyclic;
      if product !in products {
        return Failed(ProductNotFound);
      }
      var wrong := CheckComponent(View(), product, edge.dependent);
      if wrong.Some? {
        return Failed(wrong.value);
      }
      wrong := CheckComponent(View(), product, edge.dependency);
      if wrong.Some? {
        return Failed(wrong.value);
      }
      if edge.dependent == edge.dependency {
        return Failed(SelfDependency);
      }
      if edge in ProductEdges(dependencies, product) {
        return Failed(DuplicateDependency);
      }
      var edges := RowsOf(ProductEdges(dependencies, product));
      assert EdgeSet(edges) == ProductEdges(dependencies, product);
      var cycle := WouldCreateCycle(edges, edge.dependent, edge.dependency);
      if cycle {
        return Failed(CyclicDependency);
      }
      dependencies := dependencies[id := Dependency(product, edge)];
      o := Created;
      if old(Inv(View())) {
        NextKeepsInv(old(View()), Command.AddDependency(id, product, edge), View(), o);
      }
    }

    method RemoveDependency(product: Id, edge: Edge) returns (o: Outcome)
      modifies this
      ensures Next(old(View()), Command.RemoveDependency(product, edge), View(), o)
      ensures old(Inv(View())) ==> Inv(View())
    {
      hide Inv;
      if edge !in ProductEdges(dependencies, product) {
        return Failed(DependencyNotFound);
      }
      assert exists i :: i in dependencies && dependencies[i] == Dependency(product, edge) by {
        var i :| i in dependencies && dependencies[i].product == product && dependencies[i].edge == edge;
        assert dependencies[i] == Dependency(product, edge);
      }
      var row :| row in dependencies && dependencies[row] == Dependency(product, edge);
      dependencies := dependencies - {row};
      o := Removed(row);
      if old(Inv(View())) {
        NextKeepsInv(old(View()), Command.RemoveDependency(product, edge), View(), o);
      }
    }

    /** The previous release's pinned versions by component; empty on a first cut. */
    method PriorManifest(latest: Option<Release>) returns (prior: map<Id, VersionNumber>)
      requires Inv(View())
      ensures IsPriorManifest(View(), latest, prior)
    {
      hide Inv;
      prior := map[];
      if latest.None? {
        return;
      }
      ghost var s := View();
      var rows := RowsOf(ManifestPins(View(), latest.value.id));
      for i := 0 to |rows|
        invariant forall j :: 0 <= j < i ==> rows[j].component in prior
        invariant forall c :: c in prior ==> ReadFromManifest(s, latest.value, c, prior[c])
      {
        assert rows[i] in rows;
        prior := prior[rows[i].component := versions[rows[i].version].number];
      }
      assert forall pin :: pin in ManifestPins(s, latest.value.id) ==> pin in rows;
      ManifestIsPrior(s, latest.value, prior);
    }

    /** Each active component's own change, and the version it would pin. */
    method ClassifyActive(product: Id, prior: map<Id, VersionNumber>, rows: seq<Id>)
      returns (keys: seq<Id>, own: map<Id, BumpLevel>)
      requires Inv(View()) && IsPriorManifest(View(), Latest(releases, product), prior)
      requires forall v :: v in rows <==> v in ActiveRows(View(), product)
      ensures forall k :: k in keys <==> k in own
      ensures own == OwnLevels(View(), product)
    {
      hide Inv, ClassifyChange, PinnedNumber, ActiveComponents, Latest;
      ghost var s := View();
      ActiveRowsAre(s, product);
      keys, own := [], map[];
      for i := 0 to |rows|
        invariant forall k :: k in keys <==> k in own
        invariant forall j :: 0 <= j < i ==> rows[j] in s.versions && s.versions[rows[j]].component in own
        invariant forall c :: c in own ==> c in ActiveComponents(s, product) && own[c] == OwnLevels(s, product)[c]
      {
        var v := rows[i];
        assert v in rows;
        var c := versions[v].component;
        var earlier := if c in prior then Some(prior[c]) else None;
        assert PinnedNumber(s.versions, s.pins, Latest(s.releases, product), c) == earlier;
        keys := keys + [c];
        own := own[c := ClassifyChange(earlier, versions[v].number)];
      }
      forall c | c in ActiveComponents(s, product)
        ensures c in own
      {
        assert ActiveOf(s.versions, c) in rows;
      }
      assert own.Keys == ActiveComponents(s, product);
    }

    /** The bump, its explanation, and each component's change level. */
    method Derive(product: Id, rows: seq<Id>)
      returns (bump: BumpLevel, rationale: Option<Rationale>, levels: map<Id, BumpLevel>)
      requires Inv(View()) && product in products
      requires forall v :: v in rows <==> v in ActiveRows(View(), product)
      ensures bump == CutBump(View(), product)
      ensures rationale == CutRationale(View(), product)
      ensures levels == if products[product].policy == Default then OwnLevels(View(), product) else map[]
    {
      if products[product].policy != Default {
        return Minor, None, map[];
      }
      ghost var s := View();
      assert Acyclic(ProductEdges(s.dependencies, product));
      hide Inv, Strongest, Acyclic, OwnLevels, ProductBump, RemovedAny;
      var keys, own, removedAny := Compare(product, rows);
      var edges := RowsOf(ProductEdges(dependencies, product));
      assert EdgeSet(edges) == ProductEdges(s.dependencies, product);
      var explained := Explain(keys, own, edges, removedAny);
      bump, rationale, levels := explained.bump, Some(explained), own;
    }

    /** The active composition against the previous manifest. */
    method Compare(product: Id, rows: seq<Id>)
      returns (keys: seq<Id>, own: map<Id, BumpLevel>, removedAny: bool)
      requires Inv(View()) && forall v :: v in rows <==> v in ActiveRows(View(), product)
      ensures forall k :: k in keys <==> k in own
      ensures own == OwnLevels(View(), product) && removedAny == RemovedAny(View(), product)
    {
      hide Inv, OwnLevels, RemovedAny, IsPriorManifest, ActiveComponents;
      var prior := PriorManifest(Latest(releases, product));
      keys, own := ClassifyActive(product, prior, rows);
      RemovedIffMissing(View(), product, prior);
      OwnLevelsAreActive(View(), product);
      removedAny := exists c :: c in prior && c !in own;
    }

    /** Freeze the active composition, replay an idempotent cut, or refuse with nothing changed. */
    method Cut(id: Id, product: Id, title: Option<string>, notes: Option<string>, key: Option<string>)
      returns (o: Outcome)
      requires Inv(View()) && forall r :: r in releases ==> r.id != id
      modifies this
      ensures Next(old(View()), Command.Cut(id, product, title, notes, key), View(), o) && Inv(View())
    {
      hide Inv, CutBump, CutRationale, ActiveComponents, OwnLevels, CutPins;
      ghost var s, c := View(), Command.Cut(id, product, title, notes, key);
      if product !in products {
        return Failed(ProductNotFound);
      }
      if exists r :: r in releases && IsReplay(r, product, key) {
        var existing :| existing in releases && IsReplay(existing, product, key);
        return Released(existing.id, false);
      }
      var rows := RowsOf(ActiveRows(View(), product));
      NoRowsIffNothingActive(s, product, rows);
      if rows == [] {
        return Failed(NothingToRelease);
      }
      var current := VersionBefore(products, releases, product);
      var bump, rationale, levels := Derive(product, rows);
      var version := ApplyBump(current, bump);
      if version.Err? {
        return Failed(BadProductVersion);
      }
      releases := releases + [Release(id, product, version.value, title, notes, key, bump, rationale)];
      Pinning(id, product, rows, levels, s);
      o := Released(id, true);
      assert CutAppends(s, c, View(), version.value);
      NextKeepsInv(s, c, View(), o);
    }

    /** Insert one manifest row per active component. */
    method Pinning(id: Id, product: Id, rows: seq<Id>, levels: map<Id, BumpLevel>, ghost s: Store)
      requires Inv(s) && product in s.products && versions == s.versions && pins == s.pins
      requires forall v :: v in rows <==> v in ActiveRows(s, product)
      requires levels == if s.products[product].policy == Default then OwnLevels(s, product) else map[]
      modifies this`pins
      ensures pins == s.pins + CutPins(s, id, product)
    {
      hide Inv, ActiveComponents, CutPins;
      ActiveRowsAre(s, product);
      for i := 0 to |rows|
        invariant pins >= s.pins
        invariant forall pin :: pin in pins - s.pins ==> pin in CutPins(s, id, product)
        invariant forall j :: 0 <= j < i ==>
                      rows[j] in ActiveRows(s, product) && CutPinFor(s, id, product, rows[j]) in pins
      {
        assert rows[i] in rows;
        var c := versions[rows[i]].component;
        var level := if c in levels then Some(levels[c]) else None;
        CutPinsAre(s, id, product, CutPinFor(s, id, product, rows[i]));
        assert level == CutLevel(s, product, c) by { OwnLevelsAreActive(s, product); }
        pins := pins + {Pin(id, c, rows[i], level)};
      }
      forall pin | pin in CutPins(s, id, product)
        ensures pin in pins
      {
        CutPinsAre(s, id, product, pin);
        assert pin.version in rows;
        var j :| 0 <= j < |rows| && rows[j] == pin.version;
        assert CutPinFor(s, id, product, rows[j]) == pin;
      }
    }

    /** The components a hypothetical major change to `target` would reach, each with its level. */
    method ImpactOf(product: Id, target: Id) returns (impacted: Result<seq<(Id, BumpLevel)>, Error>)
      requires Inv(View())
      ensures product !in products <==> impacted == Err(ProductNotFound)
      ensures product in products ==>
        (CheckComponent(View(), product, target).Some? <==> impacted == Err(ComponentNotFound))
      ensures impacted.Ok? ==> Ascending(Listed(impacted.value))
      ensures impacted.Ok? ==> var edges := ProductEdges(dependencies, product);
        && product in products && CheckComponent(View(), product, target).None?
        && (forall n :: n in AsMap(impacted.value) <==> n != target && Reaches(edges, n, target))
        && (forall n :: n in AsMap(impacted.value) ==> AsMap(impacted.value)[n] == ImpactLevel(edges, target, n))
    {
      if product !in products {
        return Err(ProductNotFound);
      }
      if target !in components || components[target].product != product {
        return Err(ComponentNotFound);
      }
      EdgesStayInProduct(View(), product);
      assert Acyclic(ProductEdges(dependencies, product));
      hide Inv, Acyclic, Reaches, AsMap, Impacted, ImpactLevel, IdBefore, Ascending;
      var ids := RowsById(set c | c in components && components[c].product == product);
      var edges := RowsOf(ProductEdges(dependencies, product));
      assert EdgeSet(edges) == ProductEdges(dependencies, product);
      var projected := ProjectImpact(ids, edges, target);
      ImpactedIsReach(ids, EdgeSet(edges), target);
      ImpactedIsAscending(ids, EdgeSet(edges), target);
      ReachersAreEndpoints(EdgeSet(edges), target);
      return Ok(projected);
    }

    method LoadRelease(id: Id) returns (release: LoadedRelease)
      requires Inv(View()) && IsReleased(View(), id)
      ensures release == Load(View(), id)
      ensures release.row in releases && release.row.id == id
      ensures forall c, v :: Shows(release.manifest, c, v) <==> PinsVersion(pins, id, c, v)
      ensures forall m :: m in release.manifest ==>
        && m.component in components && m.name == components[m.component].name
        && m.version in versions && m.number == versions[m.version].number
        && Pin(id, m.component, m.version, m.level) in pins
    {
      hide Shows, PinsVersion, SingleActive, DependenciesOk, PinsOk, LedgerOk, ReleasesOk;
      ghost var s := View();
      var row :| row in releases && row.id == id;
      SameReleaseId(products, releases, row, Load(s, id).row);
      var manifest := set pin |
        pin in pins && pin.release == id && pin.component in components && pin.version in versions ::
        ManifestRow(pin.component, components[pin.component].name, pin.version, versions[pin.version].number,
                    pin.level);
      release := LoadedRelease(row, manifest);
      forall c, v
        ensures Shows(release.manifest, c, v) <==> PinsVersion(pins, id, c, v)
      {
        ManifestMembers(s, id, c, v);
      }
    }
  }

  /** The product bump with every active component's own and effective level. */
  method Explain(keys: seq<Id>, own: map<Id, BumpLevel>, edges: seq<Edge>, removedAny: bool)
    returns (rationale: Rationale)
    requires Acyclic(EdgeSet(edges)) && forall k :: k in keys <==> k in own
    ensures rationale == Rationale(ProductBump(own, EdgeSet(edges), removedAny), removedAny, own,
                                   map c | c in own :: Strongest(Graph(own, EdgeSet(edges)), c))
  {
    hide Strongest, Acyclic, ProductBump, SettledLevels, StrongestLevels, EdgeSet;
    var bump := DeriveProductBump(keys, own, edges, removedAny);
    var effective := EffectiveLevels(keys, own, edges);
    ActiveEffectiveLevels(own, EdgeSet(edges));
    rationale := Rationale(bump, removedAny, own, map c | c in own :: effective[c]);
  }

  lemma ActiveEffectiveLevels(own: map<Id, BumpLevel>, edges: set<Edge>)
    ensures var g := Graph(own, edges);
      && own.Keys <= StrongestLevels(g).Keys
      && (map c | c in own :: StrongestLevels(g)[c]) == (map c | c in own :: Strongest(g, c))
  {
  }

  ghost function CutPinFor(s: Store, id: Id, product: Id, row: Id): Pin
    requires product in s.products && row in s.versions && s.versions[row].component in ActiveComponents(s, product)
  {
    Pin(id, s.versions[row].component, row, CutLevel(s, product, s.versions[row].component))
  }
}

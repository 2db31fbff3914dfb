/** The client's cache reducers, as a simulation of the server's steps. */
module EventCache {
  import opened Common
  import opened ChangeClassifier
  import opened DependencyGraph
  import opened Store
  import opened StoreInvariant
  import opened StoreSteps
  import opened RegistryRuns

  // ----- The cached timeline and graph -----

  datatype CachedVersion = CachedVersion(id: Id, number: VersionNumber, status: Status)

  datatype CachedComponent = CachedComponent(id: Id, versions: seq<CachedVersion>)

  type Timeline = seq<CachedComponent>

  datatype CachedEdge = CachedEdge(id: Id, edge: Edge)

  type CachedGraph = seq<CachedEdge>

  datatype LiveEvent =
    | VersionCreated(component: Id, version: CachedVersion)
    | VersionRolledBack(component: Id, target: Id, reactivated: Id)
    | DependencyAdded(dependency: CachedEdge)
    | DependencyRemoved(row: Id)

  // ----- The reducers -----

  function Map<T>(s: seq<T>, f: T -> T): (r: seq<T>)
    ensures |r| == |s| && forall i :: 0 <= i < |s| ==> r[i] == f(s[i])
  {
    seq(|s|, i requires 0 <= i < |s| => f(s[i]))
  }

  function AddVersionToComponent(c: CachedComponent, incoming: CachedVersion): CachedComponent {
    var demoted := Map(c.versions, (v: CachedVersion) => if v.status == Active then v.(status := Superseded) else v);
    c.(versions := demoted + [incoming.(status := Active)])
  }

  function ApplyVersionCreated(t: Timeline, component: Id, version: CachedVersion): Timeline {
    Map(t, (c: CachedComponent) => if c.id != component then c else AddVersionToComponent(c, version))
  }

  function RolledBackVersion(v: CachedVersion, target: Id, reactivated: Id): CachedVersion {
    if v.id == target then v.(status := RolledBack)
    else if v.id == reactivated then v.(status := Active)
    else v
  }

  function RolledBackComponent(c: CachedComponent, target: Id, reactivated: Id): CachedComponent {
    c.(versions := Map(c.versions, (v: CachedVersion) => RolledBackVersion(v, target, reactivated)))
  }

  function ApplyVersionRolledBack(t: Timeline, target: Id, reactivated: Id): Timeline {
    Map(t, (c: CachedComponent) => RolledBackComponent(c, target, reactivated))
  }

  function ApplyDependencyAdded(g: CachedGraph, e: CachedEdge): CachedGraph {
    if exists x :: x in g && x.id == e.id then g else g + [e]
  }

  function ApplyDependencyRemoved(g: CachedGraph, row: Id): CachedGraph {
    if g == [] then []
    else
      var rest := ApplyDependencyRemoved(g[..|g| - 1], row);
      if g[|g| - 1].id != row then rest + [g[|g| - 1]] else rest
  }

  // ----- Agreement with the server -----

  /** A cached component lists exactly the server's versions of it, each once. */
  ghost predicate SyncedComponent(vs: map<Id, Version>, c: CachedComponent) {
    (forall i :: 0 <= i < |c.versions| ==> Mirrors(vs, c.id, c.versions[i])) && ListsAll(vs, c)
  }

  /** As synced, except that rows the server has superseded may still show as active. */
  ghost predicate ShadowedComponent(vs: map<Id, Version>, c: CachedComponent) {
    (forall i :: 0 <= i < |c.versions| ==> Shadows(vs, c.id, c.versions[i])) && ListsAll(vs, c)
  }

  ghost predicate Mirrors(vs: map<Id, Version>, component: Id, v: CachedVersion) {
    v.id in vs && vs[v.id] == Version(component, v.number, v.status)
  }

  ghost predicate Shadows(vs: map<Id, Version>, component: Id, v: CachedVersion) {
    || Mirrors(vs, component, v)
    || (v.status == Active && Mirrors(vs, component, v.(status := Superseded)))
  }

  /** Row `x` is listed but not as the server has it. */
  ghost predicate Stale(vs: map<Id, Version>, c: CachedComponent, x: Id) {
    exists i :: 0 <= i < |c.versions| && c.versions[i].id == x && !Mirrors(vs, c.id, c.versions[i])
  }

  lemma SyncedIff(vs: map<Id, Version>, c: CachedComponent)
    ensures SyncedComponent(vs, c) <==> ShadowedComponent(vs, c) && forall x :: !Stale(vs, c, x)
  {
    forall i | 0 <= i < |c.versions|
      ensures !Mirrors(vs, c.id, c.versions[i]) ==> Stale(vs, c, c.versions[i].id)
    {
    }
  }

  /** Every version of the component is listed, and none twice. */
  ghost predicate ListsAll(vs: map<Id, Version>, c: CachedComponent) {
    && (forall i, j :: 0 <= i < j < |c.versions| ==> c.versions[i].id != c.versions[j].id)
    && (forall v :: v in vs && vs[v].component == c.id ==> Lists(c, v))
  }

  ghost predicate Lists(c: CachedComponent, v: Id) {
    exists i :: 0 <= i < |c.versions| && c.versions[i].id == v
  }

  ghost predicate SyncedTimeline(vs: map<Id, Version>, t: Timeline) {
    forall i :: 0 <= i < |t| ==> SyncedComponent(vs, t[i])
  }

  /** The cached graph holds exactly the product's edges, each row once. */
  ghost predicate SyncedGraph(ds: map<Id, Dependency>, product: Id, g: CachedGraph) {
    && (forall x :: x in g <==> x.id in ds && ds[x.id] == Dependency(product, x.edge))
    && DistinctRows(g)
  }

  ghost predicate DistinctRows(g: CachedGraph) {
    forall i, j :: 0 <= i < j < |g| ==> g[i].id != g[j].id
  }

  /** The event a successful command publishes for a product, if it concerns that product. */
  ghost function EventOf(s: Store, product: Id, c: Command, o: Outcome): Option<LiveEvent> {
    match c
    case CreateVersion(id, component, number) =>
      if o == Created && component in s.components && s.components[component].product == product
      then Some(VersionCreated(component, CachedVersion(id, number, Active))) else None
    case Rollback(target) =>
      if o.Reactivated? && target in s.versions && s.versions[target].component in s.components
        && s.components[s.versions[target].component].product == product
      then Some(VersionRolledBack(s.versions[target].component, target, o.version)) else None
    case AddDependency(id, p, edge) =>
      if o == Created && p == product then Some(DependencyAdded(CachedEdge(id, edge))) else None
    case RemoveDependency(p, edge) =>
      if o.Removed? && p == product then Some(DependencyRemoved(o.row)) else None
    case _ => None
  }

  /** A version or dependency command that succeeds is published to exactly one product, and else to none. */
  lemma OneEventPerSuccess(s: Store, c: Command, s': Store, o: Outcome)
    requires Inv(s) && Next(s, c, s', o)
    requires c.CreateVersion? || c.Rollback? || c.AddDependency? || c.RemoveDependency?
    ensures !o.Failed? <==> exists p :: EventOf(s, p, c, o).Some?
    ensures forall p, q :: EventOf(s, p, c, o).Some? && EventOf(s, q, c, o).Some? ==> p == q
  {
    hide SingleActive, DependenciesOk, ReleasesOk, PinsOk, LedgerOk, CutStep, WithVersion, RolledBackTo,
      DependencyError, ProductEdges, IsPrevious;
    match c
    case CreateVersion(_, component, _) =>
      if o == Created { assert EventOf(s, s.components[component].product, c, o).Some?; }
    case Rollback(target) =>
      if o.Reactivated? { assert EventOf(s, s.components[s.versions[target].component].product, c, o).Some?; }
    case AddDependency(_, product, _) =>
      if o == Created { assert EventOf(s, product, c, o).Some?; }
    case RemoveDependency(product, _) =>
      if o.Removed? { assert EventOf(s, product, c, o).Some?; }
  }

  function ApplyToTimeline(t: Timeline, e: Option<LiveEvent>): Timeline {
    match e
    case Some(VersionCreated(component, version)) => ApplyVersionCreated(t, component, version)
    case Some(VersionRolledBack(_, target, reactivated)) => ApplyVersionRolledBack(t, target, reactivated)
    case _ => t
  }

  /** What an event does to one cached component. */
  function ApplyToComponent(c: CachedComponent, e: Option<LiveEvent>): CachedComponent {
    match e
    case Some(VersionCreated(component, version)) => if c.id != component then c else AddVersionToComponent(c, version)
    case Some(VersionRolledBack(_, target, reactivated)) => RolledBackComponent(c, target, reactivated)
    case _ => c
  }

  lemma TimelineIsComponentwise(t: Timeline, e: Option<LiveEvent>)
    ensures var t' := ApplyToTimeline(t, e);
      |t'| == |t| && forall i :: 0 <= i < |t| ==> t'[i] == ApplyToComponent(t[i], e) && t'[i].id == t[i].id
  {
  }

  function ApplyToGraph(g: CachedGraph, e: Option<LiveEvent>): CachedGraph {
    match e
    case Some(DependencyAdded(dependency)) => ApplyDependencyAdded(g, dependency)
    case Some(DependencyRemoved(row)) => ApplyDependencyRemoved(g, row)
    case _ => g
  }

  // ----- Versions -----

  /** A create brings its component back in step, whatever rows it wrongly showed as active. */
  lemma CreateSyncs(vs: map<Id, Version>, c: CachedComponent, id: Id, number: VersionNumber)
    requires ShadowedComponent(vs, c) && id !in vs
    ensures SyncedComponent(WithVersion(vs, id, c.id, number),
                            AddVersionToComponent(c, CachedVersion(id, number, Active)))
  {
    var vs', c' := WithVersion(vs, id, c.id, number), AddVersionToComponent(c, CachedVersion(id, number, Active));
    forall i | 0 <= i < |c'.versions|
      ensures Mirrors(vs', c'.id, c'.versions[i])
    {
      if i < |c.versions| {
        assert Shadows(vs, c.id, c.versions[i]);
      }
    }
    forall i, j | 0 <= i < j < |c'.versions|
      ensures c'.versions[i].id != c'.versions[j].id
    {
      assert c'.versions[i].id == c.versions[i].id && Shadows(vs, c.id, c.versions[i]);
      assert j < |c.versions| ==> c'.versions[j].id == c.versions[j].id;
    }
    forall v | v in vs' && vs'[v].component == c'.id
      ensures Lists(c', v)
    {
      if v == id {
        assert c'.versions[|c.versions|].id == v;
      } else {
        assert Lists(c, v);
        var i :| 0 <= i < |c.versions| && c.versions[i].id == v;
        assert c'.versions[i].id == v;
      }
    }
  }

  /** The rollback leaves `x` active next to the two versions it names. */
  ghost predicate IsThird(vs: map<Id, Version>, component: Id, target: Id, previous: Id, x: Id)
    requires target in vs
  {
    vs[target].component == component && x != target && x != previous && IsActive(vs, component, x)
  }

  /** Some version other than the two the rollback names is active in the target's component. */
  ghost predicate ThirdActive(vs: map<Id, Version>, target: Id, previous: Id)
    requires target in vs
  {
    exists x :: IsThird(vs, vs[target].component, target, previous, x)
  }

  lemma RollbackRow(vs: map<Id, Version>, component: Id, v: CachedVersion, target: Id, previous: Id)
    requires Shadows(vs, component, v) && target in vs && IsCandidate(vs, target, previous)
    ensures var vs', v' := RolledBackTo(vs, target, previous), RolledBackVersion(v, target, previous);
      && Shadows(vs', component, v') && v'.id == v.id
      && (!Mirrors(vs', component, v') <==>
            || IsThird(vs, component, target, previous, v.id)
            || (!Mirrors(vs, component, v) && v.id != target && v.id != previous))
  {
  }

  lemma RollbackKeepsListing(vs: map<Id, Version>, c: CachedComponent, target: Id, previous: Id)
    requires ListsAll(vs, c) && target in vs
    ensures ListsAll(RolledBackTo(vs, target, previous), RolledBackComponent(c, target, previous))
  {
  }

  /**
   * A rollback leaves at worst superseded rows that still show as active: any third active row, and
   * those that did before and are not named.
   */
  lemma RollbackStaleIff(vs: map<Id, Version>, c: CachedComponent, target: Id, previous: Id)
    requires ShadowedComponent(vs, c) && target in vs && IsCandidate(vs, target, previous)
    ensures var vs', c' := RolledBackTo(vs, target, previous), RolledBackComponent(c, target, previous);
      && ShadowedComponent(vs', c')
      && forall x :: Stale(vs', c', x) <==>
        || IsThird(vs, c.id, target, previous, x)
        || (Stale(vs, c, x) && x != target && x != previous)
  {
    var vs', c' := RolledBackTo(vs, target, previous), RolledBackComponent(c, target, previous);
    RollbackKeepsListing(vs, c, target, previous);
    forall i | 0 <= i < |c.versions|
      ensures var v := c.versions[i];
        && Shadows(vs', c.id, c'.versions[i]) && c'.versions[i].id == v.id
        && (!Mirrors(vs', c.id, c'.versions[i]) <==>
              || IsThird(vs, c.id, target, previous, v.id)
              || (!Mirrors(vs, c.id, v) && v.id != target && v.id != previous))
    {
      assert Shadows(vs, c.id, c.versions[i]);
      RollbackRow(vs, c.id, c.versions[i], target, previous);
    }
    forall x | IsThird(vs, c.id, target, previous, x)
      ensures Stale(vs', c', x)
    {
      assert Lists(c, x);
    }
  }

  /** The rollback reducer follows the server on a component iff no third row was active there. */
  lemma RollbackSyncIff(vs: map<Id, Version>, c: CachedComponent, target: Id, previous: Id)
    requires SyncedComponent(vs, c) && target in vs && IsCandidate(vs, target, previous)
    ensures SyncedComponent(RolledBackTo(vs, target, previous), RolledBackComponent(c, target, previous)) <==>
      !(c.id == vs[target].component && ThirdActive(vs, target, previous))
  {
    var vs', c' := RolledBackTo(vs, target, previous), RolledBackComponent(c, target, previous);
    SyncedIff(vs, c);
    SyncedIff(vs', c');
    RollbackStaleIff(vs, c, target, previous);
    hide SyncedComponent, ShadowedComponent, Stale, RolledBackTo, RolledBackComponent;
  }

  /** With a single active row, no third row is active iff the rollback targets the active version. */
  lemma ThirdActiveIff(vs: map<Id, Version>, target: Id, previous: Id)
    requires SingleActive(vs) && target in vs && IsCandidate(vs, target, previous)
    ensures !ThirdActive(vs, target, previous) <==> vs[target].status == Active || vs[previous].status == Active
  {
    var a := ActiveOf(vs, vs[target].component);
    assert vs[target].status == Active ==> IsActive(vs, vs[target].component, target);
    assert vs[previous].status == Active ==> IsActive(vs, vs[target].component, previous);
    if vs[target].status != Active && vs[previous].status != Active {
      assert IsThird(vs, vs[target].component, target, previous, a);
    }
  }

  /** Three versions of component "c", the last one active. */
  function ThreeVersions(): map<Id, Version> {
    map["a" := Version("c", VersionNumber(1, 0, 0, None), Superseded),
        "b" := Version("c", VersionNumber(2, 0, 0, None), Superseded),
        "d" := Version("c", VersionNumber(3, 0, 0, None), Active)]
  }

  function ThreeCached(): CachedComponent {
    CachedComponent("c", [CachedVersion("a", VersionNumber(1, 0, 0, None), Superseded),
                          CachedVersion("b", VersionNumber(2, 0, 0, None), Superseded),
                          CachedVersion("d", VersionNumber(3, 0, 0, None), Active)])
  }

  lemma ThreeAreSynced()
    ensures SyncedComponent(ThreeVersions(), ThreeCached())
  {
    var c := ThreeCached();
    assert c.versions[0].id == "a" && c.versions[1].id == "b" && c.versions[2].id == "d";
  }

  /** Rolling back a superseded version under an active one: the server demotes the active row, the client does not. */
  lemma RollbackReducerCanDiverge()
    ensures SyncedComponent(ThreeVersions(), ThreeCached()) && IsPrevious(ThreeVersions(), "b", "a")
    ensures !SyncedComponent(RolledBackTo(ThreeVersions(), "b", "a"), RolledBackComponent(ThreeCached(), "b", "a"))
  {
    hide SyncedComponent;
    ThreeAreSynced();
    assert IsThird(ThreeVersions(), "c", "b", "a", "d");
    RollbackSyncIff(ThreeVersions(), ThreeCached(), "b", "a");
  }

  /** A version change elsewhere leaves a component as it was. */
  lemma UnaffectedStays(vs: map<Id, Version>, vs': map<Id, Version>, c: CachedComponent)
    requires ShadowedComponent(vs, c)
    requires forall v :: v in vs && vs[v].component == c.id ==> v in vs' && vs'[v] == vs[v]
    requires forall v :: v in vs' && vs'[v].component == c.id ==> v in vs && vs[v] == vs'[v]
    ensures ShadowedComponent(vs', c)
    ensures forall x :: Stale(vs', c, x) <==> Stale(vs, c, x)
  {
    forall i | 0 <= i < |c.versions|
      ensures Shadows(vs', c.id, c.versions[i])
      ensures Mirrors(vs', c.id, c.versions[i]) <==> Mirrors(vs, c.id, c.versions[i])
    {
      assert Shadows(vs, c.id, c.versions[i]);
    }
  }

  // ----- Repeated version frames -----

  /** A repeated rollback frame changes nothing. */
  lemma RepeatedRollbackChangesNothing(t: Timeline, target: Id, reactivated: Id)
    ensures var once := ApplyVersionRolledBack(t, target, reactivated);
      ApplyVersionRolledBack(once, target, reactivated) == once
  {
    var once := ApplyVersionRolledBack(t, target, reactivated);
    forall i | 0 <= i < |t|
      ensures RolledBackComponent(once[i], target, reactivated) == once[i]
    {
      assert RolledBackComponent(once[i], target, reactivated).versions == once[i].versions;
    }
  }

  /** A repeated create frame lists its version twice, so the component mirrors no table any more. */
  lemma RepeatedCreateDuplicates(c: CachedComponent, version: CachedVersion, vs: map<Id, Version>)
    ensures var twice := AddVersionToComponent(AddVersionToComponent(c, version), version);
      && |twice.versions| == |c.versions| + 2
      && !SyncedComponent(vs, twice) && !ShadowedComponent(vs, twice)
  {
    var once := AddVersionToComponent(c, version);
    var twice := AddVersionToComponent(once, version);
    var n := |c.versions|;
    assert once.versions[n].id == version.id;
    assert twice.versions[n].id == version.id && twice.versions[n + 1].id == version.id;
  }

  /** A repeated create frame changes nothing iff the client does not cache its component. */
  lemma RepeatedCreateIff(t: Timeline, component: Id, version: CachedVersion)
    ensures var once := ApplyVersionCreated(t, component, version);
      ApplyVersionCreated(once, component, version) == once <==> forall i :: 0 <= i < |t| ==> t[i].id != component
  {
    var once := ApplyVersionCreated(t, component, version);
    var twice := ApplyVersionCreated(once, component, version);
    forall i | 0 <= i < |t|
      ensures twice[i] == once[i] <==> t[i].id != component
    {
      if t[i].id == component {
        assert |twice[i].versions| == |once[i].versions| + 1;
      }
    }
  }

  // ----- Dependencies -----

  lemma {:induction false} RemovedEdges(g: CachedGraph, row: Id)
    ensures forall x :: x in ApplyDependencyRemoved(g, row) <==> x in g && x.id != row
    decreases |g|
  {
    if g != [] {
      var front, last := g[..|g| - 1], g[|g| - 1];
      RemovedEdges(front, row);
      assert forall x :: x in g <==> x in front || x == last;
    }
  }

  lemma {:induction false} RemovedStaysDistinct(g: CachedGraph, row: Id)
    requires DistinctRows(g)
    ensures DistinctRows(ApplyDependencyRemoved(g, row))
    decreases |g|
  {
    if g != [] {
      var front, last := g[..|g| - 1], g[|g| - 1];
      RemovedStaysDistinct(front, row);
      RemovedEdges(front, row);
      var rest := ApplyDependencyRemoved(front, row);
      forall i | 0 <= i < |rest|
        ensures rest[i].id != last.id
      {
        assert rest[i] in front;
        var k :| 0 <= k < |front| && front[k] == rest[i];
      }
    }
  }

  /** A repeated dependency frame changes nothing, on any cached graph. */
  lemma RepeatedFramesChangeNothing(g: CachedGraph, e: CachedEdge, row: Id)
    ensures ApplyDependencyAdded(ApplyDependencyAdded(g, e), e) == ApplyDependencyAdded(g, e)
    ensures ApplyDependencyRemoved(ApplyDependencyRemoved(g, row), row) == ApplyDependencyRemoved(g, row)
  {
    var added := ApplyDependencyAdded(g, e);
    assert e in g + [e];
    assert exists x :: x in added && x.id == e.id;
    RemovedEdges(g, row);
    NothingToRemove(ApplyDependencyRemoved(g, row), row);
  }

  lemma {:induction false} NothingToRemove(g: CachedGraph, row: Id)
    requires forall x :: x in g ==> x.id != row
    ensures ApplyDependencyRemoved(g, row) == g
    decreases |g|
  {
    if g != [] {
      var front := g[..|g| - 1];
      assert forall x :: x in front ==> x in g;
      assert g[|g| - 1] in g;
      NothingToRemove(front, row);
      assert g == front + [g[|g| - 1]];
    }
  }

  lemma AddedEdgeStaysSynced(ds: map<Id, Dependency>, product: Id, g: CachedGraph, id: Id, edge: Edge)
    requires SyncedGraph(ds, product, g) && id !in ds
    ensures SyncedGraph(ds[id := Dependency(product, edge)], product, ApplyDependencyAdded(g, CachedEdge(id, edge)))
  {
  }

  // ----- The simulation -----

  /** Every cached component belongs to the product whose events the client receives. */
  ghost predicate CachesProduct(components: map<Id, Component>, product: Id, t: Timeline) {
    forall i :: 0 <= i < |t| ==> t[i].id in components && components[t[i].id].product == product
  }

  /** The rollback reducer's blind spot: the command leaves `x` active as a third row of this component. */
  ghost predicate Strays(s: Store, c: Command, o: Outcome, component: Id, x: Id) {
    && c.Rollback? && o.Reactivated? && c.target in s.versions
    && IsThird(s.versions, component, c.target, o.version, x)
  }

  /** Row `x` of this component is set right: by a create in the component, or by a rollback naming `x`. */
  predicate Settles(c: Command, o: Outcome, component: Id, x: Id) {
    || (c.CreateVersion? && o == Created && c.component == component)
    || (c.Rollback? && o.Reactivated? && (x == c.target || x == o.version))
  }

  /** Every stale row after the step either strayed in it, or was stale before and has not been set right. */
  ghost predicate FollowsStep(s: Store, c: Command, s': Store, o: Outcome, before: CachedComponent,
                              after: CachedComponent) {
    && ShadowedComponent(s'.versions, after)
    && forall x :: Stale(s'.versions, after, x) <==>
      Strays(s, c, o, before.id, x) || (Stale(s.versions, before, x) && !Settles(c, o, before.id, x))
  }

  lemma CreateFollows(s: Store, product: Id, c: Command, s': Store, o: Outcome, cached: CachedComponent)
    requires Next(s, c, s', o) && c.CreateVersion?
    requires cached.id in s.components && s.components[cached.id].product == product
    requires ShadowedComponent(s.versions, cached)
    ensures FollowsStep(s, c, s', o, cached, ApplyToComponent(cached, EventOf(s, product, c, o)))
  {
    hide ShadowedComponent, Stale;
    if o == Created {
      if c.component == cached.id {
        CreateSyncs(s.versions, cached, c.id, c.number);
        SyncedIff(s'.versions, AddVersionToComponent(cached, CachedVersion(c.id, c.number, Active)));
      } else {
        UnaffectedStays(s.versions, s'.versions, cached);
      }
    }
  }

  lemma RollbackFollows(s: Store, product: Id, c: Command, s': Store, o: Outcome, cached: CachedComponent)
    requires Next(s, c, s', o) && c.Rollback?
    requires cached.id in s.components && s.components[cached.id].product == product
    requires ShadowedComponent(s.versions, cached)
    ensures FollowsStep(s, c, s', o, cached, ApplyToComponent(cached, EventOf(s, product, c, o)))
  {
    hide ShadowedComponent, Stale, IsPrevious;
    if o.Reactivated? {
      PreviousIsCandidate(s.versions, c.target, o.version);
      if EventOf(s, product, c, o).Some? {
        RollbackStaleIff(s.versions, cached, c.target, o.version);
      } else {
        StaleIsListed(s.versions, cached);
        UnaffectedStays(s.versions, s'.versions, cached);
      }
    }
  }

  lemma StaleIsListed(vs: map<Id, Version>, c: CachedComponent)
    requires ShadowedComponent(vs, c)
    ensures forall x :: Stale(vs, c, x) ==> x in vs && vs[x].component == c.id
  {
  }

  /** One server step and the client's reaction to its event, for any cached component of the product. */
  lemma ComponentFollows(s: Store, product: Id, c: Command, s': Store, o: Outcome, cached: CachedComponent)
    requires Next(s, c, s', o)
    requires cached.id in s.components && s.components[cached.id].product == product
    requires ShadowedComponent(s.versions, cached)
    ensures FollowsStep(s, c, s', o, cached, ApplyToComponent(cached, EventOf(s, product, c, o)))
  {
    if c.CreateVersion? {
      CreateFollows(s, product, c, s', o, cached);
    } else if c.Rollback? {
      RollbackFollows(s, product, c, s', o, cached);
    } else {
      OtherCommandsKeepVersions(s, c, s', o);
    }
  }

  /**
   * One server step and the client's reaction to its event: the cached timeline stays in sync iff
   * the step leaves no third row active in a cached component.
   */
  lemma TimelineFollowsIff(s: Store, product: Id, c: Command, s': Store, o: Outcome, t: Timeline)
    requires Next(s, c, s', o)
    requires CachesProduct(s.components, product, t) && SyncedTimeline(s.versions, t)
    ensures SyncedTimeline(s'.versions, ApplyToTimeline(t, EventOf(s, product, c, o))) <==>
      forall i, x :: 0 <= i < |t| ==> !Strays(s, c, o, t[i].id, x)
  {
    hide Next, SyncedComponent, ShadowedComponent, Stale, Strays, EventOf, ApplyToTimeline, ApplyToComponent;
    var e := EventOf(s, product, c, o);
    TimelineIsComponentwise(t, e);
    forall i | 0 <= i < |t|
      ensures SyncedComponent(s'.versions, ApplyToTimeline(t, e)[i]) <==> forall x :: !Strays(s, c, o, t[i].id, x)
    {
      SyncedIff(s.versions, t[i]);
      SyncedIff(s'.versions, ApplyToTimeline(t, e)[i]);
      ComponentFollows(s, product, c, s', o, t[i]);
    }
  }

  lemma OtherCommandsKeepDependencies(s: Store, c: Command, s': Store, o: Outcome)
    requires Next(s, c, s', o) && !c.AddDependency? && !c.RemoveDependency?
    ensures s'.dependencies == s.dependencies
  {
  }

  lemma RemovedEdgeStaysSynced(ds: map<Id, Dependency>, product: Id, g: CachedGraph, row: Id)
    requires SyncedGraph(ds, product, g)
    ensures SyncedGraph(ds - {row}, product, ApplyDependencyRemoved(g, row))
  {
    RemovedEdges(g, row);
    RemovedStaysDistinct(g, row);
  }

  lemma ForeignEdgeStaysSynced(ds: map<Id, Dependency>, ds': map<Id, Dependency>, product: Id, g: CachedGraph)
    requires SyncedGraph(ds, product, g)
    requires forall i :: i in ds && ds[i].product == product ==> i in ds' && ds'[i] == ds[i]
    requires forall i :: i in ds' && ds'[i].product == product ==> i in ds && ds[i] == ds'[i]
    ensures SyncedGraph(ds', product, g)
  {
  }

  /** Likewise for the cached dependency graph. */
  lemma GraphFollows(s: Store, product: Id, c: Command, s': Store, o: Outcome, g: CachedGraph)
    requires Inv(s) && Next(s, c, s', o) && SyncedGraph(s.dependencies, product, g)
    ensures SyncedGraph(s'.dependencies, product, ApplyToGraph(g, EventOf(s, product, c, o)))
  {
    hide Inv, SyncedGraph, DependencyError, CutStep, IsPrevious;
    if s' != s && c.AddDependency? {
      if c.product == product {
        AddedEdgeStaysSynced(s.dependencies, product, g, c.id, c.edge);
      } else {
        ForeignEdgeStaysSynced(s.dependencies, s'.dependencies, product, g);
      }
    } else if s' != s && c.RemoveDependency? {
      if c.product == product {
        RemovedEdgeStaysSynced(s.dependencies, product, g, o.row);
      } else {
        ForeignEdgeStaysSynced(s.dependencies, s'.dependencies, product, g);
      }
    } else if !c.AddDependency? && !c.RemoveDependency? {
      OtherCommandsKeepDependencies(s, c, s', o);
    }
  }

  /** The client after the events of commands `a..b`, each applied once and in order. */
  ghost function FoldTimeline(r: Run, product: Id, a: nat, b: nat, t: Timeline): Timeline
    requires a <= b <= |r.commands| && |r.states| == |r.commands| + 1 == |r.outcomes| + 1
    decreases b
  {
    if a == b then t
    else ApplyToTimeline(FoldTimeline(r, product, a, b - 1, t),
                         EventOf(r.states[b - 1], product, r.commands[b - 1], r.outcomes[b - 1]))
  }

  ghost function FoldGraph(r: Run, product: Id, a: nat, b: nat, g: CachedGraph): CachedGraph
    requires a <= b <= |r.commands| && |r.states| == |r.commands| + 1 == |r.outcomes| + 1
    decreases b
  {
    if a == b then g
    else ApplyToGraph(FoldGraph(r, product, a, b - 1, g),
                      EventOf(r.states[b - 1], product, r.commands[b - 1], r.outcomes[b - 1]))
  }

  /** Folding keeps the cached components and their order. */
  lemma {:induction false} FoldKeepsComponents(r: Run, product: Id, a: nat, b: nat, t: Timeline)
    requires a <= b <= |r.commands| && |r.states| == |r.commands| + 1 == |r.outcomes| + 1
    ensures var t' := FoldTimeline(r, product, a, b, t);
      |t'| == |t| && forall k :: 0 <= k < |t| ==> t'[k].id == t[k].id
    decreases b
  {
    hide ApplyToTimeline, EventOf;
    if a < b {
      FoldKeepsComponents(r, product, a, b - 1, t);
      TimelineIsComponentwise(FoldTimeline(r, product, a, b - 1, t),
                              EventOf(r.states[b - 1], product, r.commands[b - 1], r.outcomes[b - 1]));
    }
  }

  /** A command between `a` and `b` left row `x` active as a third row, and none since has set it right. */
  ghost predicate Strayed(r: Run, a: nat, b: nat, component: Id, x: Id)
    requires a <= b <= |r.commands| && |r.states| == |r.commands| + 1 == |r.outcomes| + 1
  {
    exists m :: a <= m < b && Strays(r.states[m], r.commands[m], r.outcomes[m], component, x)
      && forall n :: m < n < b ==> !Settles(r.commands[n], r.outcomes[n], component, x)
  }

  lemma NothingStrayedYet(r: Run, a: nat, component: Id)
    requires a <= |r.commands| && |r.states| == |r.commands| + 1 == |r.outcomes| + 1
    ensures forall x :: !Strayed(r, a, a, component, x)
  {
  }

  lemma StrayedGrows(r: Run, a: nat, i: nat, component: Id, x: Id)
    requires a <= i < |r.commands| && |r.states| == |r.commands| + 1 == |r.outcomes| + 1
    ensures Strayed(r, a, i + 1, component, x) <==>
      || Strays(r.states[i], r.commands[i], r.outcomes[i], component, x)
      || (Strayed(r, a, i, component, x) && !Settles(r.commands[i], r.outcomes[i], component, x))
  {
  }

  /**
   * A cached component folded with the events of any run lists the server's versions of it, and the
   * rows whose status is off are exactly those that strayed; they show as active and are superseded.
   */
  lemma {:induction false} CachedComponentFollows(r: Run, product: Id, a: nat, b: nat, t: Timeline, k: nat)
    requires IsRun(r) && a <= b <= |r.commands| && k < |t|
    requires CachesProduct(r.states[a].components, product, t) && SyncedTimeline(r.states[a].versions, t)
    ensures |FoldTimeline(r, product, a, b, t)| == |t|
    ensures var c := FoldTimeline(r, product, a, b, t)[k];
      && c.id == t[k].id && ShadowedComponent(r.states[b].versions, c)
      && forall x :: Stale(r.states[b].versions, c, x) <==> Strayed(r, a, b, c.id, x)
    decreases b
  {
    hide Inv, Next, SyncedComponent, ShadowedComponent, Stale, Strays, Strayed, EventOf, ApplyToTimeline,
      ApplyToComponent, Settles;
    FoldKeepsComponents(r, product, a, b, t);
    if a == b {
      SyncedIff(r.states[a].versions, t[k]);
      NothingStrayedYet(r, a, t[k].id);
    } else {
      var i := b - 1;
      CachedComponentFollows(r, product, a, i, t, k);
      HistoryOnlyGrows(r, a, i);
      assert Step(r, i);
      hide IsRun;
      var before := FoldTimeline(r, product, a, i, t);
      TimelineIsComponentwise(before, EventOf(r.states[i], product, r.commands[i], r.outcomes[i]));
      ComponentFollows(r.states[i], product, r.commands[i], r.states[b], r.outcomes[i], before[k]);
      forall x
        ensures Stale(r.states[b].versions, FoldTimeline(r, product, a, b, t)[k], x) <==> Strayed(r, a, b, t[k].id, x)
      {
        StrayedGrows(r, a, i, t[k].id, x);
      }
    }
  }

  /** A snapshot folded with the events that follow it equals the server iff no row of a cached component strayed. */
  lemma ClientFollowsServerIff(r: Run, product: Id, a: nat, b: nat, t: Timeline)
    requires IsRun(r) && a <= b <= |r.commands|
    requires CachesProduct(r.states[a].components, product, t) && SyncedTimeline(r.states[a].versions, t)
    ensures SyncedTimeline(r.states[b].versions, FoldTimeline(r, product, a, b, t)) <==>
      forall k, x :: 0 <= k < |t| ==> !Strayed(r, a, b, t[k].id, x)
  {
    FoldKeepsComponents(r, product, a, b, t);
    hide IsRun, Strayed, SyncedComponent, ShadowedComponent, Stale;
    var t' := FoldTimeline(r, product, a, b, t);
    forall k | 0 <= k < |t|
      ensures SyncedComponent(r.states[b].versions, t'[k]) <==> forall x :: !Strayed(r, a, b, t[k].id, x)
    {
      CachedComponentFollows(r, product, a, b, t, k);
      SyncedIff(r.states[b].versions, t'[k]);
    }
  }

  /** In particular it equals the server when every rollback targets the version that is active at the time. */
  lemma ClientFollowsActiveRollbacks(r: Run, product: Id, a: nat, b: nat, t: Timeline)
    requires IsRun(r) && a <= b <= |r.commands|
    requires CachesProduct(r.states[a].components, product, t) && SyncedTimeline(r.states[a].versions, t)
    requires forall m :: a <= m < b ==> TargetsActive(r.states[m], r.commands[m], r.outcomes[m])
    ensures SyncedTimeline(r.states[b].versions, FoldTimeline(r, product, a, b, t))
  {
    ClientFollowsServerIff(r, product, a, b, t);
    hide IsRun, FoldTimeline, SyncedTimeline, CachesProduct, Inv, TargetsActive, Strays;
    forall m, component, x | a <= m < b
      ensures !Strays(r.states[m], r.commands[m], r.outcomes[m], component, x)
    {
      EveryStateHoldsInv(r, m);
      ActiveTargetNeverStrays(r.states[m], r.commands[m], r.outcomes[m], component, x);
    }
  }

  lemma ActiveTargetNeverStrays(s: Store, c: Command, o: Outcome, component: Id, x: Id)
    requires Inv(s) && TargetsActive(s, c, o)
    ensures !Strays(s, c, o, component, x)
  {
    hide LedgerOk, PinsOk, DependenciesOk, ReleasesOk;
    if TargetsActive(s, c, o) && c.Rollback? && o.Reactivated? && c.target in s.versions {
      assert IsActive(s.versions, s.versions[c.target].component, c.target);
    }
  }

  /** A successful rollback targets the active version of its component. */
  ghost predicate TargetsActive(s: Store, c: Command, o: Outcome) {
    c.Rollback? && o.Reactivated? && c.target in s.versions ==> s.versions[c.target].status == Active
  }

  /** The cached graph equals the server's edges after the events of any run. */
  lemma {:induction false} GraphFollowsServer(r: Run, product: Id, a: nat, b: nat, g: CachedGraph)
    requires IsRun(r) && a <= b <= |r.commands| && SyncedGraph(r.states[a].dependencies, product, g)
    ensures SyncedGraph(r.states[b].dependencies, product, FoldGraph(r, product, a, b, g))
    decreases b
  {
    if a < b {
      var i := b - 1;
      GraphFollowsServer(r, product, a, i, g);
      EveryStateHoldsInv(r, i);
      assert Step(r, i);
      hide Inv, Next, SyncedGraph, IsRun;
      GraphFollows(r.states[i], product, r.commands[i], r.states[b], r.outcomes[i], FoldGraph(r, product, a, i, g));
    }
  }
}

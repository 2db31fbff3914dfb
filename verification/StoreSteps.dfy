/** Every command keeps the invariant and only extends the store. */
module StoreSteps {
  import opened Common
  import opened BumpLevels
  import opened ChangeClassifier
  import opened DependencyGraph
  import opened BumpPropagation
  import opened ProductVersion
  import opened Store
  import opened StoreInvariant

  // ----- Versions -----

  /** On any store, however many active rows it holds, a create leaves the new row as the only one. */
  lemma CreateLeavesOneActive(vs: map<Id, Version>, id: Id, component: Id, number: VersionNumber)
    requires id !in vs
    ensures var vs' := WithVersion(vs, id, component, number);
      && VersionsKept(vs, vs')
      && (forall v :: IsActive(vs', component, v) <==> v == id)
      && (forall c, v :: c != component ==> (IsActive(vs', c, v) <==> IsActive(vs, c, v)))
  {
  }

  /** Likewise for a rollback: the re-activated row is the component's only active one. */
  lemma RollbackLeavesOneActive(vs: map<Id, Version>, target: Id, previous: Id)
    requires target in vs && IsCandidate(vs, target, previous)
    ensures var vs' := RolledBackTo(vs, target, previous);
      && VersionsKept(vs, vs') && vs'.Keys == vs.Keys
      && vs'[target].status == RolledBack
      && (forall v :: IsActive(vs', vs[target].component, v) <==> v == previous)
      && (forall c, v :: c != vs[target].component ==> (IsActive(vs', c, v) <==> IsActive(vs, c, v)))
  {
  }

  /** Swapping one component's active row for another keeps exactly one active row everywhere. */
  lemma SingleActiveKept(vs: map<Id, Version>, vs': map<Id, Version>, component: Id, active: Id)
    requires SingleActive(vs) && VersionsKept(vs, vs')
    requires forall v :: v in vs' && v !in vs ==> vs'[v].component == component
    requires forall v :: IsActive(vs', component, v) <==> v == active
    requires forall c, v :: c != component ==> (IsActive(vs', c, v) <==> IsActive(vs, c, v))
    ensures SingleActive(vs')
  {
    assert IsActive(vs', component, active);
    forall v | v in vs'
      ensures HasActive(vs', vs'[v].component)
    {
      var c := vs'[v].component;
      if c != component {
        assert HasActive(vs, vs[v].component);
        assert IsActive(vs', c, ActiveOf(vs, c));
      }
    }
  }

  /** The rest of the invariant only reads what a version can never lose. */
  lemma VersionChangeKeepsInv(s: Store, vs': map<Id, Version>)
    requires Inv(s) && VersionsKept(s.versions, vs') && SingleActive(vs')
    requires forall v :: v in vs' ==> vs'[v].component in s.components
    ensures Inv(s.(versions := vs')) && Extends(s, s.(versions := vs'))
  {
    hide SingleActive, LedgerOk, DependenciesOk;
    LedgerKept(s.products, s.products, s.components, s.versions, vs', s.releases, s.pins, s.pins);
    forall pin | pin in s.pins
      ensures PinOk(s.components, vs', s.releases, pin)
    {
      assert PinOk(s.components, s.versions, s.releases, pin);
    }
  }

  lemma CreateVersionKeepsInv(s: Store, id: Id, component: Id, number: VersionNumber)
    requires Inv(s) && id !in s.versions && component in s.components
    ensures var s' := s.(versions := WithVersion(s.versions, id, component, number));
      Inv(s') && Extends(s, s')
  {
    hide PinsOk, LedgerOk, DependenciesOk, ReleasesOk, Extends;
    CreateLeavesOneActive(s.versions, id, component, number);
    SingleActiveKept(s.versions, WithVersion(s.versions, id, component, number), component, id);
    VersionChangeKeepsInv(s, WithVersion(s.versions, id, component, number));
  }

  lemma RollbackKeepsInv(s: Store, target: Id, previous: Id)
    requires Inv(s) && target in s.versions && IsCandidate(s.versions, target, previous)
    ensures var s' := s.(versions := RolledBackTo(s.versions, target, previous));
      Inv(s') && Extends(s, s')
  {
    hide PinsOk, LedgerOk, DependenciesOk, ReleasesOk, Extends;
    RollbackLeavesOneActive(s.versions, target, previous);
    SingleActiveKept(s.versions, RolledBackTo(s.versions, target, previous), s.versions[target].component, previous);
    VersionChangeKeepsInv(s, RolledBackTo(s.versions, target, previous));
  }

  // ----- Products and components -----

  lemma CreateProductKeepsInv(s: Store, id: Id, product: Product)
    requires Inv(s) && id !in s.products
    ensures var s' := s.(products := s.products[id := product]);
      Inv(s') && Extends(s, s')
  {
    hide SingleActive, LedgerOk, PinsOk, Acyclic;
    LedgerKept(s.products, s.products[id := product], s.components, s.versions, s.versions, s.releases, s.pins, s.pins);
    forall i | i in s.dependencies
      ensures DependencyOk(s.products[id := product], s.components, s.dependencies[i])
    {
      assert DependencyOk(s.products, s.components, s.dependencies[i]);
    }
  }

  lemma CreateComponentKeepsInv(s: Store, id: Id, component: Component)
    requires Inv(s) && id !in s.components && component.product in s.products
    ensures var s' := s.(components := s.components[id := component]);
      Inv(s') && Extends(s, s')
  {
    hide SingleActive, LedgerOk, Acyclic;
    var components := s.components[id := component];
    forall i | i in s.dependencies
      ensures DependencyOk(s.products, components, s.dependencies[i])
    {
      assert DependencyOk(s.products, s.components, s.dependencies[i]);
    }
    forall pin | pin in s.pins
      ensures PinOk(components, s.versions, s.releases, pin)
    {
      assert PinOk(s.components, s.versions, s.releases, pin);
    }
  }

  // ----- Dependencies -----

  lemma EdgesAfterAdd(ds: map<Id, Dependency>, id: Id, d: Dependency, p: Id)
    requires id !in ds
    ensures ProductEdges(ds[id := d], p) == ProductEdges(ds, p) + if d.product == p then {d.edge} else {}
  {
    var ds' := ds[id := d];
    forall e | e in ProductEdges(ds, p)
      ensures e in ProductEdges(ds', p)
    {
      var i :| i in ds && ds[i].product == p && ds[i].edge == e;
      assert i in ds' && ds'[i] == ds[i];
    }
    assert id in ds' && ds'[id] == d;
  }

  lemma AddDependencyKeepsInv(s: Store, id: Id, product: Id, edge: Edge)
    requires Inv(s) && id !in s.dependencies && DependencyError(s, product, edge).None?
    ensures var s' := s.(dependencies := s.dependencies[id := Dependency(product, edge)]);
      Inv(s') && Extends(s, s')
  {
    hide SingleActive, LedgerOk, PinsOk, Acyclic, Reaches;
    var ds, d := s.dependencies, Dependency(product, edge);
    var ds' := ds[id := d];
    forall i | i in ds'
      ensures DependencyOk(s.products, s.components, ds'[i])
      ensures i != id ==> ds'[i] != d
    {
      if i != id {
        assert DependencyOk(s.products, s.components, ds[i]);
        assert ds[i].product == product ==> ds[i].edge in ProductEdges(ds, product);
      }
    }
    forall p
      ensures Acyclic(ProductEdges(ds', p))
    {
      EdgesAfterAdd(ds, id, d, p);
      assert Acyclic(ProductEdges(ds, p));
      if p == product {
        EdgeKeepsAcyclicIff(ProductEdges(ds, p), edge);
      } else {
        assert ProductEdges(ds', p) == ProductEdges(ds, p);
      }
    }
  }

  /** Once the other checks pass, an edge is refused as a cycle exactly when adding it would create one. */
  lemma RefusedAsCycleIff(s: Store, product: Id, edge: Edge)
    requires Inv(s)
    requires DependencyError(s, product, edge).None? || DependencyError(s, product, edge) == Some(CyclicDependency)
    ensures DependencyError(s, product, edge) == Some(CyclicDependency)
      <==> !Acyclic(ProductEdges(s.dependencies, product) + {edge})
  {
    hide LedgerOk, PinsOk, SingleActive, ReleasesOk;
    assert Acyclic(ProductEdges(s.dependencies, product));
    EdgeKeepsAcyclicIff(ProductEdges(s.dependencies, product), edge);
  }

  lemma RemoveDependencyKeepsInv(s: Store, row: Id)
    requires Inv(s) && row in s.dependencies
    ensures var s' := s.(dependencies := s.dependencies - {row});
      Inv(s') && Extends(s, s')
  {
    hide SingleActive, LedgerOk, PinsOk, Acyclic;
    var ds := s.dependencies;
    forall i | i in ds - {row}
      ensures DependencyOk(s.products, s.components, (ds - {row})[i])
    {
      assert DependencyOk(s.products, s.components, ds[i]);
    }
    forall p
      ensures Acyclic(ProductEdges(ds - {row}, p))
    {
      SubsetAcyclic(ProductEdges(ds - {row}, p), ProductEdges(ds, p));
    }
  }

  // ----- Cutting a release -----

  lemma SameReleaseId(products: map<Id, Product>, rs: seq<Release>, a: Release, b: Release)
    requires ReleasesOk(products, rs) && a in rs && b in rs && a.id == b.id
    ensures a == b
  {
  }

  /** A component pinned by any release still has an active version: versions are never lost. */
  lemma PinnedIsActive(s: Store, r: Release, pin: Pin)
    requires Inv(s) && r in s.releases && pin in s.pins && pin.release == r.id
    ensures pin.component in ActiveComponents(s, r.product)
  {
    hide LedgerOk, DependenciesOk;
    assert PinOk(s.components, s.versions, s.releases, pin);
    var owner :| owner in s.releases && owner.id == pin.release && owner.product == s.components[pin.component].product;
    SameReleaseId(s.products, s.releases, owner, r);
    assert HasActive(s.versions, s.versions[pin.version].component);
  }

  /** `removed_any` is false at every cut of a reachable store. */
  lemma NothingIsRemoved(s: Store, product: Id)
    requires Inv(s)
    ensures !RemovedAny(s, product)
  {
    hide Inv;
    var latest := Latest(s.releases, product);
    if latest.Some? {
      forall pin | pin in s.pins && pin.release == latest.value.id
        ensures pin.component in ActiveComponents(s, product)
      {
        PinnedIsActive(s, latest.value, pin);
      }
    }
  }

  /** The first cut of a product is exactly minor, whatever its policy and its edges. */
  lemma FirstCutIsMinor(s: Store, product: Id)
    requires product in s.products && Latest(s.releases, product).None? && ActiveComponents(s, product) != {}
    ensures CutBump(s, product) == Minor
  {
    var own := OwnLevels(s, product);
    var c :| c in ActiveComponents(s, product);
    assert own[c] == Minor;
    assert forall l :: l in own.Values ==> l == Minor;
  }

  lemma CutCoversOwnLevels(s: Store, product: Id, c: Id)
    requires product in s.products && c in ActiveComponents(s, product)
    requires s.products[product].policy == Default
    ensures AtMost(OwnLevels(s, product)[c], CutBump(s, product))
  {
  }

  lemma CutPinsKeepPins(s: Store, id: Id, product: Id)
    requires product in s.products && forall r :: r in s.releases ==> r.id != id
    ensures PinsKept(s.releases, s.pins, s.pins + CutPins(s, id, product))
  {
  }

  /** The appended manifest holds one row per active component. */
  lemma CutPinsAre(s: Store, id: Id, product: Id, pin: Pin)
    requires product in s.products
    ensures pin in CutPins(s, id, product) <==>
      && pin.release == id && pin.component in ActiveComponents(s, product)
      && pin.version == ActiveOf(s.versions, pin.component) && pin.level == CutLevel(s, product, pin.component)
  {
  }

  lemma NoPinYet(s: Store, id: Id, pin: Pin)
    requires Inv(s) && pin in s.pins && forall r :: r in s.releases ==> r.id != id
    ensures pin.release != id
  {
    assert PinOk(s.components, s.versions, s.releases, pin);
  }

  lemma CutKeepsPinsOk(s: Store, r: Release)
    requires Inv(s) && r.product in s.products && forall e :: e in s.releases ==> e.id != r.id
    ensures PinsOk(s.components, s.versions, s.releases + [r], s.pins + CutPins(s, r.id, r.product))
  {
    hide Inv, ActiveOf, CutLevel, CutPins;
    var pins := s.pins + CutPins(s, r.id, r.product);
    PinsOf(s);
    forall pin | pin in pins
      ensures PinOk(s.components, s.versions, s.releases + [r], pin)
    {
      if pin in s.pins {
        assert PinOk(s.components, s.versions, s.releases, pin);
      } else {
        CutPinsAre(s, r.id, r.product, pin);
        assert r in s.releases + [r];
      }
    }
    forall p, q | p in pins && q in pins && p.release == q.release && p.component == q.component
      ensures p == q
    {
      CutPinsAre(s, r.id, r.product, p);
      CutPinsAre(s, r.id, r.product, q);
      if p in s.pins { NoPinYet(s, r.id, p); }
      if q in s.pins { NoPinYet(s, r.id, q); }
    }
  }

  lemma PinsOf(s: Store)
    requires Inv(s)
    ensures PinsOk(s.components, s.versions, s.releases, s.pins)
  {
  }

  lemma CutPinIsDerivable(s: Store, r: Release, pin: Pin)
    requires Inv(s) && r.product in s.products && forall e :: e in s.releases ==> e.id != r.id
    requires r.bump == CutBump(s, r.product) && pin in CutPins(s, r.id, r.product)
    ensures PinDerivable(s.products[r.product].policy, s.versions, s.pins + CutPins(s, r.id, r.product),
                         Latest(s.releases, r.product), r, pin)
  {
    hide Inv, ActiveOf, CutPins, CutBump, ClassifyChange;
    var prior := Latest(s.releases, r.product);
    CutPinsAre(s, r.id, r.product, pin);
    PinsOf(s);
    assert forall p :: p in s.pins ==> PinOk(s.components, s.versions, s.releases, p);
    CutPinsKeepPins(s, r.id, r.product);
    if prior.Some? {
      PinnedNumberKept(s.versions, s.versions, s.releases, s.pins, s.pins + CutPins(s, r.id, r.product), prior.value,
                       pin.component);
    }
    if s.products[r.product].policy == Default {
      CutCoversOwnLevels(s, r.product, pin.component);
    }
  }

  /** The release a cut appends is explained by the releases before it. */
  /** The explanation a cut records: the manifest's levels, what each becomes, and the highest of those. */
  lemma CutIsExplained(s: Store, r: Release)
    requires Inv(s) && r.product in s.products && forall e :: e in s.releases ==> e.id != r.id
    requires r.bump == CutBump(s, r.product) && r.rationale == CutRationale(s, r.product)
    ensures Explained(s.products[r.product].policy, s.pins + CutPins(s, r.id, r.product), r)
  {
    hide Inv, CutPins, OwnLevels, Strongest, ProductBump, ActiveComponents;
    NothingIsRemoved(s, r.product);
    if s.products[r.product].policy == Default {
      var pins := s.pins + CutPins(s, r.id, r.product);
      var own := OwnLevels(s, r.product);
      var g := Graph(own, ProductEdges(s.dependencies, r.product));
      HighestStrongestIsBump(g);
      OwnLevelsAreActive(s, r.product);
      forall c | c in own
        ensures AtMost(own[c], Strongest(g, c)) && IsPinned(pins, r.id, c)
      {
        StrongestSettles(g, c);
        ActiveIsPinned(s, r, c);
      }
      forall pin | pin in pins && pin.release == r.id
        ensures pin.component in own && pin.level == Some(own[pin.component])
      {
        if pin in s.pins { NoPinYet(s, r.id, pin); }
        CutPinsAre(s, r.id, r.product, pin);
      }
    }
  }

  lemma OwnLevelsAreActive(s: Store, product: Id)
    ensures OwnLevels(s, product).Keys == ActiveComponents(s, product)
  {
  }

  lemma CutExtendsLedger(s: Store, r: Release)
    requires Inv(s) && r.product in s.products && forall e :: e in s.releases ==> e.id != r.id
    requires ActiveComponents(s, r.product) != {}
    requires r.bump == CutBump(s, r.product) && r.rationale == CutRationale(s, r.product)
    requires ApplyBump(VersionBefore(s.products, s.releases, r.product), r.bump) == Ok(r.version)
    ensures LedgerEntry(s.products, s.versions, s.pins + CutPins(s, r.id, r.product), s.releases, r)
  {
    hide Inv, CutPins, CutBump, CutRationale, PinDerivable, Explained, ActiveComponents, ApplyBump, Latest;
    var pins := s.pins + CutPins(s, r.id, r.product);
    var prior := Latest(s.releases, r.product);
    CutIsExplained(s, r);
    if prior.None? {
      FirstCutIsMinor(s, r.product);
    }
    LegacyCutIsMinor(s, r.product);
    var some :| some in ActiveComponents(s, r.product);
    ActiveIsPinned(s, r, some);
    forall pin | pin in pins && pin.release == r.id
      ensures PinDerivable(s.products[r.product].policy, s.versions, pins, prior, r, pin)
    {
      if pin in s.pins { NoPinYet(s, r.id, pin); }
      CutPinIsDerivable(s, r, pin);
    }
    if prior.Some? {
      forall c | IsPinned(pins, prior.value.id, c)
        ensures IsPinned(pins, r.id, c)
      {
        CutPinsKeepPins(s, r.id, r.product);
        var pin :| pin in pins && pin.release == prior.value.id && pin.component == c;
        assert pin in s.pins;
        PinnedIsActive(s, prior.value, pin);
        ActiveIsPinned(s, r, c);
      }
    }
  }

  lemma LegacyCutIsMinor(s: Store, product: Id)
    requires product in s.products
    ensures s.products[product].policy != Default ==> CutBump(s, product) == Minor
  {
  }

  lemma ActiveIsPinned(s: Store, r: Release, c: Id)
    requires r.product in s.products && c in ActiveComponents(s, r.product)
    ensures IsPinned(s.pins + CutPins(s, r.id, r.product), r.id, c)
  {
    var pin := Pin(r.id, c, ActiveOf(s.versions, c), CutLevel(s, r.product, c));
    CutPinsAre(s, r.id, r.product, pin);
    assert pin in s.pins + CutPins(s, r.id, r.product);
  }

  lemma ReleasesStayUnique(products: map<Id, Product>, rs: seq<Release>, r: Release)
    requires ReleasesOk(products, rs) && r.product in products
    requires forall e :: e in rs ==> e.id != r.id && !IsReplay(e, r.product, r.key)
    ensures ReleasesOk(products, rs + [r])
  {
  }

  lemma CutKeepsInv(s: Store, c: Command, s': Store, version: string)
    requires Inv(s) && c.Cut? && c.product in s.products && FreshId(s, c)
    requires forall r :: r in s.releases ==> !IsReplay(r, c.product, c.key)
    requires ActiveComponents(s, c.product) != {}
    requires ApplyBump(VersionBefore(s.products, s.releases, c.product), CutBump(s, c.product)) == Ok(version)
    requires CutAppends(s, c, s', version)
    ensures Inv(s') && Extends(s, s')
  {
    hide CutPins, CutBump, CutRationale, LedgerEntry, ActiveComponents, SingleActive, DependenciesOk, PinsOk;
    var rs, r := s.releases, s'.releases[|s.releases|];
    CutPinsKeepPins(s, r.id, r.product);
    CutKeepsPinsOk(s, r);
    CutExtendsLedger(s, r);
    LedgerKept(s.products, s.products, s.components, s.versions, s.versions, rs, s.pins, s'.pins);
    assert rs + [r] == s'.releases;
    forall i | 0 <= i < |rs| + 1
      ensures LedgerEntry(s.products, s.versions, s'.pins, s'.releases[..i], s'.releases[i])
    {
      if i < |rs| {
        assert s'.releases[..i] == rs[..i];
      } else {
        assert s'.releases[..i] == rs;
      }
    }
    ReleasesStayUnique(s.products, rs, r);
  }

  // ----- Every command -----

  lemma NothingChangesExtends(s: Store)
    ensures Extends(s, s)
  {
  }

  /** The invariant is inductive, and history is only ever extended. */
  lemma NextKeepsInv(s: Store, c: Command, s': Store, o: Outcome)
    requires Inv(s) && Next(s, c, s', o)
    ensures Inv(s') && Extends(s, s')
  {
    hide Inv, Extends, CutPins, CutBump, CutRationale, ActiveComponents, IsPrevious;
    NothingChangesExtends(s);
    if s' != s {
      match c
      case CreateProduct(id, name) => CreateProductKeepsInv(s, id, Product(name, "0.0.0", Default));
      case CreateComponent(id, product, name) => CreateComponentKeepsInv(s, id, Component(product, name));
      case CreateVersion(id, component, number) => CreateVersionKeepsInv(s, id, component, number);
      case Rollback(target) =>
        PreviousIsCandidate(s.versions, target, o.version);
        RollbackKeepsInv(s, target, o.version);
      case AddDependency(id, product, edge) => AddDependencyKeepsInv(s, id, product, edge);
      case RemoveDependency(product, edge) => RemoveDependencyKeepsInv(s, o.row);
      case Cut(_, product, _, _, _) =>
        var version := ApplyBump(VersionBefore(s.products, s.releases, product), CutBump(s, product)).value;
        CutKeepsInv(s, c, s', version);
    }
  }

  lemma PreviousIsCandidate(vs: map<Id, Version>, target: Id, w: Id)
    requires target in vs && IsPrevious(vs, target, w)
    ensures IsCandidate(vs, target, w)
  {
  }

  lemma OtherCommandsKeepVersions(s: Store, c: Command, s': Store, o: Outcome)
    requires Next(s, c, s', o) && !c.CreateVersion? && !c.Rollback?
    ensures s'.versions == s.versions
  {
  }
}

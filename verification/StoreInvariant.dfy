/** What every reachable store satisfies, and that every command keeps it. */
module StoreInvariant {
  import opened Common
  import opened BumpLevels
  import opened ChangeClassifier
  import opened DependencyGraph
  import opened BumpPropagation
  import opened ProductVersion
  import opened Store

  // ----- The invariant, table by table -----

  /** Exactly one active version for every component that has any version. */
  ghost predicate SingleActive(vs: map<Id, Version>) {
    && (forall v {:trigger HasActive(vs, vs[v].component)} :: v in vs ==> HasActive(vs, vs[v].component))
    && (forall c, v, w :: IsActive(vs, c, v) && IsActive(vs, c, w) ==> v == w)
  }

  ghost predicate ReferencesOk(s: Store) {
    && (forall c :: c in s.components ==> s.components[c].product in s.products)
    && (forall v :: v in s.versions ==> s.versions[v].component in s.components)
  }

  ghost predicate DependencyOk(products: map<Id, Product>, components: map<Id, Component>, d: Dependency) {
    && d.product in products
    && d.edge.dependent in components && components[d.edge.dependent].product == d.product
    && d.edge.dependency in components && components[d.edge.dependency].product == d.product
    && d.edge.dependent != d.edge.dependency
  }

  /** Edges stay within their product, are never self-edges or duplicates, and never form a cycle. */
  ghost predicate DependenciesOk(products: map<Id, Product>, components: map<Id, Component>, ds: map<Id, Dependency>) {
    && (forall i {:trigger DependencyOk(products, components, ds[i])} :: i in ds ==>
          DependencyOk(products, components, ds[i]))
    && (forall i, j :: i in ds && j in ds && ds[i] == ds[j] ==> i == j)
    && (forall p :: Acyclic(ProductEdges(ds, p)))
  }

  /** Release ids are unique, and so is every idempotency key within its product. */
  ghost predicate ReleasesOk(products: map<Id, Product>, rs: seq<Release>) {
    && (forall i :: 0 <= i < |rs| ==> rs[i].product in products)
    && (forall i, j :: 0 <= i < j < |rs| ==> rs[i].id != rs[j].id && !IsReplay(rs[j], rs[i].product, rs[i].key))
  }

  ghost predicate PinOk(components: map<Id, Component>, vs: map<Id, Version>, rs: seq<Release>, pin: Pin) {
    && pin.component in components
    && pin.version in vs && vs[pin.version].component == pin.component
    && exists r :: r in rs && r.id == pin.release && r.product == components[pin.component].product
  }

  ghost predicate UniquePins(pins: set<Pin>) {
    forall p, q :: p in pins && q in pins && p.release == q.release && p.component == q.component ==> p == q
  }

  ghost predicate PinsOk(components: map<Id, Component>, vs: map<Id, Version>, rs: seq<Release>, pins: set<Pin>) {
    UniquePins(pins) && forall pin {:trigger PinOk(components, vs, rs, pin)} :: pin in pins ==>
      PinOk(components, vs, rs, pin)
  }

  /** The change level that the previous manifest implies for a pin. */
  ghost function ImpliedLevel(policy: Policy, vs: map<Id, Version>, pins: set<Pin>, prior: Option<Release>,
                              pin: Pin): Option<BumpLevel>
    requires pin.version in vs
  {
    if policy != Default then None
    else Some(ClassifyChange(PinnedNumber(vs, pins, prior, pin.component), vs[pin.version].number))
  }

  ghost predicate PinDerivable(policy: Policy, vs: map<Id, Version>, pins: set<Pin>, prior: Option<Release>,
                               r: Release, pin: Pin) {
    && pin.version in vs
    && pin.level == ImpliedLevel(policy, vs, pins, prior, pin)
    && (pin.level.Some? ==> AtMost(pin.level.value, r.bump))
  }

  /**
   * A recorded explanation matches its release: its own levels are the manifest's, every effective
   * level covers the own one, and the bump is the highest effective level.
   */
  ghost predicate Explains(w: Rationale, pins: set<Pin>, r: Release) {
    && w.bump == r.bump && !w.removedAny
    && w.effective.Keys == w.own.Keys
    && (forall c :: c in w.own ==> AtMost(w.own[c], w.effective[c]))
    && w.bump == Highest(w.effective.Values)
    && (forall c :: c in w.own <==> IsPinned(pins, r.id, c))
    && (forall pin {:trigger pin in pins} :: pin in pins && pin.release == r.id ==>
          pin.component in w.own && pin.level == Some(w.own[pin.component]))
  }

  ghost predicate Explained(policy: Policy, pins: set<Pin>, r: Release) {
    if policy == Default then r.rationale.Some? && Explains(r.rationale.value, pins, r) else r.rationale.None?
  }

  /** A release explained by the releases before it. */
  ghost predicate LedgerEntry(products: map<Id, Product>, vs: map<Id, Version>, pins: set<Pin>,
                              earlier: seq<Release>, r: Release) {
    && r.product in products
    && var prior, policy := Latest(earlier, r.product), products[r.product].policy;
    && ApplyBump(VersionBefore(products, earlier, r.product), r.bump) == Ok(r.version)
    && (prior.None? || policy != Default ==> r.bump == Minor)
    && Explained(policy, pins, r)
    && (exists c :: IsPinned(pins, r.id, c))
    && (forall pin {:trigger PinDerivable(policy, vs, pins, prior, r, pin)} ::
          pin in pins && pin.release == r.id ==> PinDerivable(policy, vs, pins, prior, r, pin))
    && (prior.Some? ==> forall c :: IsPinned(pins, prior.value.id, c) ==> IsPinned(pins, r.id, c))
  }

  ghost predicate LedgerOk(products: map<Id, Product>, vs: map<Id, Version>, pins: set<Pin>, rs: seq<Release>) {
    forall i {:trigger LedgerEntry(products, vs, pins, rs[..i], rs[i])} ::
      0 <= i < |rs| ==> LedgerEntry(products, vs, pins, rs[..i], rs[i])
  }

  ghost predicate Inv(s: Store) {
    && SingleActive(s.versions)
    && ReferencesOk(s)
    && DependenciesOk(s.products, s.components, s.dependencies)
    && ReleasesOk(s.products, s.releases)
    && PinsOk(s.components, s.versions, s.releases, s.pins)
    && LedgerOk(s.products, s.versions, s.pins, s.releases)
  }

  /** Products of any policy and base version, and nothing else yet. */
  ghost predicate Initial(s: Store) {
    s == Store(s.products, map[], map[], map[], [], {})
  }

  lemma InitialHoldsInv(s: Store)
    requires Initial(s)
    ensures Inv(s)
  {
  }

  // ----- What later stores keep of earlier ones -----

  /** No row is lost, only statuses change, and a rolled-back version stays rolled back. */
  ghost predicate VersionsKept(vs: map<Id, Version>, vs': map<Id, Version>) {
    forall v :: v in vs ==>
      && v in vs'
      && vs'[v].component == vs[v].component && vs'[v].number == vs[v].number
      && (vs[v].status == RolledBack ==> vs'[v].status == RolledBack)
  }

  /** New manifest rows belong to new releases only. */
  ghost predicate PinsKept(rs: seq<Release>, pins: set<Pin>, pins': set<Pin>) {
    pins <= pins' && forall r, pin :: r in rs && pin in pins' && pin.release == r.id ==> pin in pins
  }

  ghost predicate Kept<V>(m: map<Id, V>, m': map<Id, V>) {
    forall k :: k in m ==> k in m' && m'[k] == m[k]
  }

  ghost predicate Extends(s: Store, s': Store) {
    && Kept(s.products, s'.products)
    && Kept(s.components, s'.components)
    && VersionsKept(s.versions, s'.versions)
    && s.releases <= s'.releases
    && PinsKept(s.releases, s.pins, s'.pins)
  }

  lemma PinnedNumberKept(vs: map<Id, Version>, vs': map<Id, Version>, rs: seq<Release>, pins: set<Pin>, pins': set<Pin>,
                         r: Release, c: Id)
    requires VersionsKept(vs, vs') && PinsKept(rs, pins, pins') && UniquePins(pins) && r in rs
    requires forall pin :: pin in pins ==> pin.version in vs
    ensures IsPinned(pins', r.id, c) <==> IsPinned(pins, r.id, c)
    ensures IsPinned(pins, r.id, c) ==> PinOf(pins', r.id, c) == PinOf(pins, r.id, c)
    ensures PinnedNumber(vs', pins', Some(r), c) == PinnedNumber(vs, pins, Some(r), c)
  {
  }

  lemma ExplainedKept(policy: Policy, rs: seq<Release>, pins: set<Pin>, pins': set<Pin>, r: Release)
    requires PinsKept(rs, pins, pins') && r in rs && Explained(policy, pins, r)
    ensures Explained(policy, pins', r)
  {
    forall c
      ensures IsPinned(pins', r.id, c) <==> IsPinned(pins, r.id, c)
    {
    }
  }

  /** The explanation of a release does not change while the store grows. */
  lemma LedgerEntryKept(products: map<Id, Product>, products': map<Id, Product>, vs: map<Id, Version>,
                        vs': map<Id, Version>, rs: seq<Release>, pins: set<Pin>, pins': set<Pin>,
                        earlier: seq<Release>, r: Release)
    requires Kept(products, products') && VersionsKept(vs, vs') && PinsKept(rs, pins, pins') && UniquePins(pins)
    requires forall pin :: pin in pins ==> pin.version in vs
    requires r in rs && forall e :: e in earlier ==> e in rs
    requires LedgerEntry(products, vs, pins, earlier, r)
    ensures LedgerEntry(products', vs', pins', earlier, r)
  {
    hide Explained;
    var prior, policy := Latest(earlier, r.product), products[r.product].policy;
    ExplainedKept(policy, rs, pins, pins', r);
    var some :| IsPinned(pins, r.id, some);
    PinnedNumberKept(vs, vs', rs, pins, pins', r, some);
    forall pin | pin in pins' && pin.release == r.id
      ensures PinDerivable(policy, vs', pins', prior, r, pin)
    {
      assert PinDerivable(policy, vs, pins, prior, r, pin);
      if prior.Some? {
        PinnedNumberKept(vs, vs', rs, pins, pins', prior.value, pin.component);
      }
    }
    if prior.Some? {
      forall c | IsPinned(pins', prior.value.id, c)
        ensures IsPinned(pins', r.id, c)
      {
        PinnedNumberKept(vs, vs', rs, pins, pins', prior.value, c);
        PinnedNumberKept(vs, vs', rs, pins, pins', r, c);
      }
    }
  }

  lemma LedgerKept(products: map<Id, Product>, products': map<Id, Product>, components: map<Id, Component>,
                   vs: map<Id, Version>, vs': map<Id, Version>, rs: seq<Release>, pins: set<Pin>, pins': set<Pin>)
    requires Kept(products, products') && VersionsKept(vs, vs') && PinsKept(rs, pins, pins')
    requires PinsOk(components, vs, rs, pins) && LedgerOk(products, vs, pins, rs)
    ensures LedgerOk(products', vs', pins', rs)
  {
    hide LedgerEntry;
    assert forall pin :: pin in pins ==> PinOk(components, vs, rs, pin);
    forall i | 0 <= i < |rs|
      ensures LedgerEntry(products', vs', pins', rs[..i], rs[i])
    {
      LedgerEntryKept(products, products', vs, vs', rs, pins, pins', rs[..i], rs[i]);
    }
  }
}

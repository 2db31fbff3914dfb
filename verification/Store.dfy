/** The registry's tables, and what each command does to them. */
module Store {
  import opened Common
  import opened BumpLevels
  import opened ChangeClassifier
  import opened DependencyGraph
  import opened BumpPropagation
  import opened ProductVersion

  datatype Status = Active | Superseded | RolledBack

  datatype Policy = Legacy | Default

  datatype Product = Product(name: string, baseVersion: string, policy: Policy)

  datatype Component = Component(product: Id, name: string)

  datatype Version = Version(component: Id, number: VersionNumber, status: Status)

  datatype Dependency = Dependency(product: Id, edge: Edge)

  /** The recorded explanation of a derived bump. */
  datatype Rationale = Rationale(bump: BumpLevel, removedAny: bool, own: map<Id, BumpLevel>,
                                 effective: map<Id, BumpLevel>)

  /** `title` is the release's optional label. */
  datatype Release = Release(id: Id, product: Id, version: string, title: Option<string>, notes: Option<string>,
                             key: Option<string>, bump: BumpLevel, rationale: Option<Rationale>)

  /** One manifest row; `(release, component)` is its primary key. */
  datatype Pin = Pin(release: Id, component: Id, version: Id, level: Option<BumpLevel>)

  /** Releases are listed in creation order; every other table is unordered. */
  datatype Store = Store(products: map<Id, Product>, components: map<Id, Component>, versions: map<Id, Version>,
                         dependencies: map<Id, Dependency>, releases: seq<Release>, pins: set<Pin>)

  datatype Error =
    | ProductNameTaken | ProductNotFound | ComponentNotFound | VersionNotFound | DependencyNotFound
    | ForeignComponent | SelfDependency | DuplicateDependency | CyclicDependency
    | NoPriorVersion | NothingToRelease | BadProductVersion

  /** Commands carry the fresh id the server mints for the row they insert. */
  datatype Command =
    | CreateProduct(id: Id, name: string)
    | CreateComponent(id: Id, product: Id, name: string)
    | CreateVersion(id: Id, component: Id, number: VersionNumber)
    | Rollback(target: Id)
    | AddDependency(id: Id, product: Id, edge: Edge)
    | RemoveDependency(product: Id, edge: Edge)
    | Cut(id: Id, product: Id, title: Option<string>, notes: Option<string>, key: Option<string>)

  datatype Outcome =
    | Created
    | Reactivated(version: Id)
    | Removed(row: Id)
    | Released(release: Id, created: bool)
    | Failed(error: Error)

  // ----- Versions -----

  predicate IsActive(vs: map<Id, Version>, c: Id, v: Id) {
    v in vs && vs[v].component == c && vs[v].status == Active
  }

  ghost predicate HasActive(vs: map<Id, Version>, c: Id) {
    exists v :: IsActive(vs, c, v)
  }

  ghost function ActiveOf(vs: map<Id, Version>, c: Id): (v: Id)
    requires HasActive(vs, c)
    ensures IsActive(vs, c, v)
  {
    var v :| IsActive(vs, c, v); v
  }

  function CoreNumber(n: VersionNumber): Core {
    Core(n.major, n.minor, n.patch)
  }

  /** `w` may be re-activated when `target` is rolled back. */
  predicate IsCandidate(vs: map<Id, Version>, target: Id, w: Id)
    requires target in vs
  {
    && w in vs && w != target
    && vs[w].component == vs[target].component
    && vs[w].status != RolledBack
    && CoreLess(CoreNumber(vs[w].number), CoreNumber(vs[target].number))
  }

  /** A candidate no other candidate is above; ties are the store's choice. */
  ghost predicate IsPrevious(vs: map<Id, Version>, target: Id, w: Id)
    requires target in vs
  {
    && IsCandidate(vs, target, w)
    && forall x :: IsCandidate(vs, target, x) ==>
      !CoreLess(CoreNumber(vs[w].number), CoreNumber(vs[x].number))
  }

  function Demoted(version: Version, component: Id): Version {
    if version.component == component && version.status == Active
    then version.(status := Superseded)
    else version
  }

  /** All rows after `id` has been inserted as its component's active version. */
  function WithVersion(vs: map<Id, Version>, id: Id, component: Id, number: VersionNumber): map<Id, Version> {
    (map v | v in vs :: Demoted(vs[v], component))[id := Version(component, number, Active)]
  }

  /** All rows after `target` has been rolled back to `previous`. */
  function RolledBackTo(vs: map<Id, Version>, target: Id, previous: Id): map<Id, Version>
    requires target in vs
  {
    map v | v in vs ::
      if v == target then vs[v].(status := RolledBack)
      else if v == previous then vs[v].(status := Active)
      else Demoted(vs[v], vs[target].component)
  }

  // ----- Dependencies -----

  function ProductEdges(ds: map<Id, Dependency>, product: Id): set<Edge> {
    set id | id in ds && ds[id].product == product :: ds[id].edge
  }

  function CheckComponent(s: Store, product: Id, component: Id): Option<Error> {
    if component !in s.components then Some(ComponentNotFound)
    else if s.components[component].product != product then Some(ForeignComponent)
    else None
  }

  /** The first check an added dependency fails, in the order they are made. */
  ghost function DependencyError(s: Store, product: Id, edge: Edge): Option<Error> {
    if product !in s.products then Some(ProductNotFound)
    else if CheckComponent(s, product, edge.dependent).Some? then CheckComponent(s, product, edge.dependent)
    else if CheckComponent(s, product, edge.dependency).Some? then CheckComponent(s, product, edge.dependency)
    else if edge.dependent == edge.dependency then Some(SelfDependency)
    else if edge in ProductEdges(s.dependencies, product) then Some(DuplicateDependency)
    else if Reaches(ProductEdges(s.dependencies, product), edge.dependency, edge.dependent) then Some(CyclicDependency)
    else None
  }

  // ----- Releases -----

  /** The product's most recent release. */
  function Latest(releases: seq<Release>, product: Id): (latest: Option<Release>)
    ensures latest.Some? ==> latest.value in releases && latest.value.product == product
    ensures latest.None? ==> forall r :: r in releases ==> r.product != product
  {
    if releases == [] then None
    else if releases[|releases| - 1].product == product then Some(releases[|releases| - 1])
    else Latest(releases[..|releases| - 1], product)
  }

  ghost predicate IsPinned(pins: set<Pin>, release: Id, c: Id) {
    exists pin :: pin in pins && pin.release == release && pin.component == c
  }

  ghost function PinOf(pins: set<Pin>, release: Id, c: Id): (pin: Pin)
    requires IsPinned(pins, release, c)
    ensures pin in pins && pin.release == release && pin.component == c
  {
    var pin :| pin in pins && pin.release == release && pin.component == c; pin
  }

  /** The version a release pinned for a component. */
  ghost function PinnedNumber(vs: map<Id, Version>, pins: set<Pin>, release: Option<Release>,
                              c: Id): Option<VersionNumber> {
    if release.Some? && IsPinned(pins, release.value.id, c) && PinOf(pins, release.value.id, c).version in vs
    then Some(vs[PinOf(pins, release.value.id, c).version].number)
    else None
  }

  ghost function ActiveComponents(s: Store, product: Id): set<Id> {
    set c | c in s.components && s.components[c].product == product && HasActive(s.versions, c)
  }

  /** Each active component's change since the latest release. */
  ghost function OwnLevels(s: Store, product: Id): map<Id, BumpLevel> {
    map c | c in ActiveComponents(s, product) ::
      ClassifyChange(PinnedNumber(s.versions, s.pins, Latest(s.releases, product), c),
                     s.versions[ActiveOf(s.versions, c)].number)
  }

  /** Some component of the latest release is no longer active. */
  ghost predicate RemovedAny(s: Store, product: Id) {
    Latest(s.releases, product).Some? &&
    exists pin :: pin in s.pins && pin.release == Latest(s.releases, product).value.id
      && pin.version in s.versions && pin.component !in ActiveComponents(s, product)
  }

  ghost function CutBump(s: Store, product: Id): BumpLevel
    requires product in s.products
  {
    if s.products[product].policy != Default then Minor
    else ProductBump(OwnLevels(s, product), ProductEdges(s.dependencies, product), RemovedAny(s, product))
  }

  ghost function CutRationale(s: Store, product: Id): Option<Rationale>
    requires product in s.products
  {
    if s.products[product].policy != Default then None
    else
      var own := OwnLevels(s, product);
      var g := Graph(own, ProductEdges(s.dependencies, product));
      Some(Rationale(CutBump(s, product), RemovedAny(s, product), own, map c | c in own :: Strongest(g, c)))
  }

  ghost function CutLevel(s: Store, product: Id, c: Id): Option<BumpLevel>
    requires product in s.products && c in ActiveComponents(s, product)
  {
    if s.products[product].policy != Default then None else Some(OwnLevels(s, product)[c])
  }

  ghost function CutPins(s: Store, id: Id, product: Id): set<Pin>
    requires product in s.products
  {
    set c | c in ActiveComponents(s, product) :: Pin(id, c, ActiveOf(s.versions, c), CutLevel(s, product, c))
  }

  function VersionBefore(products: map<Id, Product>, releases: seq<Release>, product: Id): string
    requires product in products
  {
    var latest := Latest(releases, product);
    if latest.Some? then latest.value.version else products[product].baseVersion
  }

  /** A release of this product already carries this idempotency key. */
  predicate IsReplay(r: Release, product: Id, key: Option<string>) {
    key.Some? && r.product == product && r.key == key
  }

  /** The release row and manifest that a successful cut appends. */
  ghost predicate CutAppends(s: Store, c: Command, s': Store, version: string)
    requires c.Cut? && c.product in s.products
  {
    s' == s.(releases := s.releases + [Release(c.id, c.product, version, c.title, c.notes, c.key,
                                               CutBump(s, c.product), CutRationale(s, c.product))],
             pins := s.pins + CutPins(s, c.id, c.product))
  }

  ghost predicate CutStep(s: Store, c: Command, s': Store, o: Outcome)
    requires c.Cut?
  {
    if c.product !in s.products then
      o == Failed(ProductNotFound) && s' == s
    else if exists r :: r in s.releases && IsReplay(r, c.product, c.key) then
      s' == s && o.Released? && !o.created &&
      exists r :: r in s.releases && IsReplay(r, c.product, c.key) && o.release == r.id
    else if ActiveComponents(s, c.product) == {} then
      o == Failed(NothingToRelease) && s' == s
    else
      match ApplyBump(VersionBefore(s.products, s.releases, c.product), CutBump(s, c.product))
      case Err(_) => o == Failed(BadProductVersion) && s' == s
      case Ok(version) => o == Released(c.id, true) && CutAppends(s, c, s', version)
  }

  // ----- The step relation -----

  /** The id a command brings is not in use. */
  ghost predicate FreshId(s: Store, c: Command) {
    match c
    case CreateProduct(id, _) => id !in s.products
    case CreateComponent(id, _, _) => id !in s.components
    case CreateVersion(id, _, _) => id !in s.versions
    case AddDependency(id, _, _) => id !in s.dependencies
    case Cut(id, _, _, _, _) => forall r :: r in s.releases ==> r.id != id
    case _ => true
  }

  /** One atomic command against the store, and its outcome. */
  ghost predicate Next(s: Store, c: Command, s': Store, o: Outcome) {
    FreshId(s, c) &&
    match c
    case CreateProduct(id, name) =>
      if exists p :: p in s.products && s.products[p].name == name then o == Failed(ProductNameTaken) && s' == s
      else o == Created && s' == s.(products := s.products[id := Product(name, "0.0.0", Default)])
    case CreateComponent(id, product, name) =>
      if product !in s.products then o == Failed(ProductNotFound) && s' == s
      else o == Created && s' == s.(components := s.components[id := Component(product, name)])
    case CreateVersion(id, component, number) =>
      if component !in s.components then o == Failed(ComponentNotFound) && s' == s
      else o == Created && s' == s.(versions := WithVersion(s.versions, id, component, number))
    case Rollback(target) =>
      if target !in s.versions then o == Failed(VersionNotFound) && s' == s
      else if forall w :: !IsCandidate(s.versions, target, w) then o == Failed(NoPriorVersion) && s' == s
      else
        && o.Reactivated? && IsPrevious(s.versions, target, o.version)
        && s' == s.(versions := RolledBackTo(s.versions, target, o.version))
    case AddDependency(id, product, edge) =>
      var error := DependencyError(s, product, edge);
      if error.Some? then o == Failed(error.value) && s' == s
      else o == Created && s' == s.(dependencies := s.dependencies[id := Dependency(product, edge)])
    case RemoveDependency(product, edge) =>
      if edge !in ProductEdges(s.dependencies, product) then o == Failed(DependencyNotFound) && s' == s
      else
        && o.Removed? && o.row in s.dependencies && s.dependencies[o.row] == Dependency(product, edge)
        && s' == s.(dependencies := s.dependencies - {o.row})
    case Cut(_, _, _, _, _) => CutStep(s, c, s', o)
  }
}

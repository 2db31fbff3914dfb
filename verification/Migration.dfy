/** The flat-to-relational migration: what it conserves, and why running it again is harmless. */
module Migration {
  import opened Common

  /** ULIDs minted by the migration, numbered in minting order. */
  type RowId = nat

  datatype LegacyRow = LegacyRow(product: string, major: int, minor: int, patch: int, status: Option<string>)

  datatype ProductRow = ProductRow(id: RowId, name: string)

  datatype ComponentRow = ComponentRow(id: RowId, product: RowId, name: string, kind: string)

  datatype VersionRow = VersionRow(id: RowId, component: RowId, major: int, minor: int, patch: int,
                                   prerelease: Option<string>, status: Option<string>)

  /** What the table named `versions` holds: the legacy flat shape or the relational one. */
  datatype VersionsTable = Absent | Flat(rows: seq<LegacyRow>) | Relational(versions: seq<VersionRow>)

  datatype Database = Database(versions: VersionsTable, archive: Option<seq<LegacyRow>>,
                               products: seq<ProductRow>, components: seq<ComponentRow>)

  const DEFAULT_COMPONENT_NAME := "default"
  const DEFAULT_COMPONENT_KIND := "service"

  /** Migrate only a legacy-shaped, non-empty table into an empty product table. */
  predicate ShouldMigrate(db: Database) {
    db.versions.Flat? && db.versions.rows != [] && db.products == []
  }

  // ----- Reading the relational tables back as flat rows -----

  function ProductName(products: seq<ProductRow>, id: RowId): Option<string> {
    if products == [] then None
    else if products[|products| - 1].id == id then Some(products[|products| - 1].name)
    else ProductName(products[..|products| - 1], id)
  }

  function OwnerName(products: seq<ProductRow>, components: seq<ComponentRow>, component: RowId): Option<string> {
    if components == [] then None
    else if components[|components| - 1].id == component then
      ProductName(products, components[|components| - 1].product)
    else OwnerName(products, components[..|components| - 1], component)
  }

  /** Version `v` is the migrated form of `row`. */
  predicate Represents(products: seq<ProductRow>, components: seq<ComponentRow>, v: VersionRow, row: LegacyRow) {
    && OwnerName(products, components, v.component) == Some(row.product)
    && (v.major, v.minor, v.patch, v.status) == (row.major, row.minor, row.patch, row.status)
    && v.prerelease == None
  }

  ghost predicate HasName(products: seq<ProductRow>, name: string) {
    exists i :: 0 <= i < |products| && products[i].name == name
  }

  /** One product per distinct legacy name, one default service component per product, in step. */
  ghost predicate OneComponentPerName(names: set<string>, products: seq<ProductRow>, components: seq<ComponentRow>) {
    && |products| == |components|
    && (forall n :: n in names <==> HasName(products, n))
    && (forall i, j :: 0 <= i < j < |products| ==> products[i].name != products[j].name)
    && (forall i, j :: 0 <= i < j < |products| ==>
          products[i].id != products[j].id && components[i].id != components[j].id)
    && (forall i :: 0 <= i < |components| ==>
          components[i] == ComponentRow(components[i].id, products[i].id, DEFAULT_COMPONENT_NAME,
                                        DEFAULT_COMPONENT_KIND))
  }

  function NamesOf(rows: seq<LegacyRow>): set<string> {
    set r | r in rows :: r.product
  }

  /** Legacy rows and new versions in bijection, row by row. */
  ghost predicate Aligned(rows: seq<LegacyRow>, products: seq<ProductRow>, components: seq<ComponentRow>,
                          versions: seq<VersionRow>) {
    && |versions| == |rows|
    && (forall i :: 0 <= i < |rows| ==> Represents(products, components, versions[i], rows[i]))
    && (forall i, j :: 0 <= i < j < |versions| ==> versions[i].id != versions[j].id)
  }

  /** The result of a successful migration of `rows`, read in some order of the store's choosing. */
  ghost predicate Migrated(before: Database, after: Database, rows: seq<LegacyRow>) {
    && before.versions.Flat? && multiset(rows) == multiset(before.versions.rows)
    && after.archive == Some(before.versions.rows)
    && after.versions.Relational?
    && Aligned(rows, after.products, after.components, after.versions.versions)
    && OneComponentPerName(NamesOf(before.versions.rows), after.products, after.components)
  }

  // ----- Facts about the joins -----

  lemma MultisetKeepsNames(a: seq<LegacyRow>, b: seq<LegacyRow>)
    requires multiset(a) == multiset(b)
    ensures NamesOf(a) == NamesOf(b)
  {
    assert forall r :: r in a <==> r in multiset(a);
    assert forall r :: r in b <==> r in multiset(b);
  }

  // ----- What a migration conserves -----

  /** A version read back as the flat row it came from. */
  function Flatten(products: seq<ProductRow>, components: seq<ComponentRow>, v: VersionRow): LegacyRow {
    LegacyRow(match OwnerName(products, components, v.component) case Some(name) => name case None => "",
              v.major, v.minor, v.patch, v.status)
  }

  function FlattenAll(products: seq<ProductRow>, components: seq<ComponentRow>, vs: seq<VersionRow>): seq<LegacyRow> {
    seq(|vs|, i requires 0 <= i < |vs| => Flatten(products, components, vs[i]))
  }

  /** Joining the new tables gives back exactly the legacy rows, duplicates included. */
  lemma RowsAreConserved(before: Database, after: Database, rows: seq<LegacyRow>)
    requires Migrated(before, after, rows)
    ensures multiset(FlattenAll(after.products, after.components,
                                after.versions.versions)) == multiset(before.versions.rows)
  {
    var flat := FlattenAll(after.products, after.components, after.versions.versions);
    forall i | 0 <= i < |rows|
      ensures flat[i] == rows[i]
    {
      assert Represents(after.products, after.components, after.versions.versions[i], rows[i]);
    }
    assert flat == rows;
  }

  /** The `i`th version read is the `i`th legacy row, field by field, under a product of its name. */
  lemma MigratedRowByRow(before: Database, after: Database, rows: seq<LegacyRow>, i: nat)
    requires Migrated(before, after, rows) && i < |rows|
    ensures |after.versions.versions| == |rows|
    ensures var v := after.versions.versions[i];
      && v.major == rows[i].major && v.minor == rows[i].minor && v.patch == rows[i].patch
      && v.status == rows[i].status && v.prerelease == None
      && exists c, p :: c in after.components && p in after.products && c.id == v.component && p.id == c.product
           && p.name == rows[i].product && c.name == "default" && c.kind == "service"
  {
    var v := after.versions.versions[i];
    assert Represents(after.products, after.components, v, rows[i]);
    var c, p := OwnerIsJoined(after.products, after.components, v.component);
    hide Aligned, OwnerName;
    var k :| 0 <= k < |after.components| && after.components[k] == c;
    assert c.name == DEFAULT_COMPONENT_NAME && c.kind == DEFAULT_COMPONENT_KIND;
  }

  lemma {:induction false} NameIsJoined(products: seq<ProductRow>, id: RowId) returns (p: ProductRow)
    requires ProductName(products, id).Some?
    ensures p in products && p.id == id && Some(p.name) == ProductName(products, id)
    decreases |products|
  {
    if products[|products| - 1].id == id {
      p := products[|products| - 1];
    } else {
      p := NameIsJoined(products[..|products| - 1], id);
    }
  }

  lemma {:induction false} OwnerIsJoined(products: seq<ProductRow>, components: seq<ComponentRow>, id: RowId)
    returns (c: ComponentRow, p: ProductRow)
    requires OwnerName(products, components, id).Some?
    ensures c in components && c.id == id && p in products && p.id == c.product
    ensures Some(p.name) == OwnerName(products, components, id)
    decreases |components|
  {
    if components[|components| - 1].id == id {
      c := components[|components| - 1];
      p := NameIsJoined(products, c.product);
    } else {
      c, p := OwnerIsJoined(products, components[..|components| - 1], id);
    }
  }

  /** A migrated database never passes the gate again. */
  lemma MigrationClosesGate(before: Database, after: Database, rows: seq<LegacyRow>)
    requires Migrated(before, after, rows)
    ensures !ShouldMigrate(after)
  {
  }

  // ----- The migration -----

  class FlatToRelationalMigration {
    var db: Database
    var minted: RowId

    constructor (db: Database, minted: RowId)
      ensures this.db == db && this.minted == minted
    {
      this.db, this.minted := db, minted;
    }

    method NewUlid() returns (id: RowId)
      modifies this`minted
      ensures id == old(minted) && minted == old(minted) + 1
    {
      id, minted := minted, minted + 1;
    }

    /**
     * A closed gate changes nothing; an open one migrates every row, unless an archive is already
     * in the way, in which case the rename fails before anything has changed.
     */
    method Run() returns (ok: bool)
      requires ReferencesHold(db)
      modifies this
      ensures !ShouldMigrate(old(db)) ==> ok && db == old(db)
      ensures ShouldMigrate(old(db)) ==> (ok <==> old(db).archive.None?)
      ensures !ok ==> db == old(db)
      ensures
        if old(db).versions.Flat? && |old(db).versions.rows| > 0 && |old(db).products| == 0 && old(db).archive == None
        then db.versions.Relational? && db.archive == Some(old(db).versions.rows)
        else db == old(db)
      ensures ShouldMigrate(old(db)) && ok ==> exists rows :: Migrated(old(db), db, rows)
      ensures ok ==> !ShouldMigrate(db)
      ensures !ok || !ShouldMigrate(old(db)) ==> minted == old(minted)
      ensures ReferencesHold(db)
    {
      if !ShouldMigrate(db) {
        return true;
      }
      var legacy := db.versions.rows;
      var rows := ReadLegacyRows(legacy);
      if db.archive.Some? {
        return false;
      }
      NoProductsNoComponents(db);
      db := db.(versions := Absent, archive := Some(legacy));
      db := db.(versions := Relational([]));
      InsertRelational(rows);
      MultisetKeepsNames(rows, legacy);
      assert Migrated(old(db), db, rows);
      MigrationClosesGate(old(db), db, rows);
      ComponentsHaveProducts(NamesOf(rows), db);
      return true;
    }

    /**
     * Running twice is running once: whether the first run migrated, found the gate closed or was
     * blocked by an archive, the second answers the same, changes no table and mints no id.
     */
    method RunTwice() returns (ok: bool, again: bool, ghost once: Database)
      requires ReferencesHold(db)
      modifies this
      ensures again == ok && db == once
      ensures !ok || !ShouldMigrate(old(db)) ==> once == old(db) && minted == old(minted)
      ensures ShouldMigrate(old(db)) ==> (ok <==> old(db).archive.None?)
      ensures ShouldMigrate(old(db)) && ok ==> exists rows :: Migrated(old(db), once, rows)
      ensures ReferencesHold(db)
    {
      ok := Run();
      once := db;
      ghost var next := minted;
      again := Run();
      assert minted == next;
    }

    /** The legacy rows in the order the query returns them. */
    static method ReadLegacyRows(table: seq<LegacyRow>) returns (rows: seq<LegacyRow>)
      ensures multiset(rows) == multiset(table)
    {
      rows := [];
      var left := multiset(table);
      while left != multiset{}
        invariant multiset(rows) + left == multiset(table)
        decreases |left|
      {
        var row :| row in left;
        left := left - multiset{row};
        rows := rows + [row];
      }
    }

    /** A new product with its default component. */
    method CreateProductAndComponent(name: string) returns (component: RowId)
      modifies this
      ensures component == old(minted) + 1 && minted == old(minted) + 2
      ensures db == old(db).(products := old(db).products + [ProductRow(old(minted), name)],
                             components := old(db).components + [ComponentRow(component, old(minted),
                                                                 DEFAULT_COMPONENT_NAME, DEFAULT_COMPONENT_KIND)])
    {
      var product := NewUlid();
      component := NewUlid();
      db := db.(products := db.products + [ProductRow(product, name)]);
      var added := ComponentRow(component, product, DEFAULT_COMPONENT_NAME, DEFAULT_COMPONENT_KIND);
      db := db.(components := db.components + [added]);
    }

    method InsertRelational(rows: seq<LegacyRow>)
      requires db.versions == Relational([]) && db.products == [] && db.components == []
      modifies this
      ensures db.archive == old(db).archive && db.versions.Relational?
      ensures Aligned(rows, db.products, db.components, db.versions.versions)
      ensures OneComponentPerName(NamesOf(rows), db.products, db.components)
    {
      hide Aligned, OneComponentPerName, InsertedFor, NamesOf;
      var componentByProduct: map<string, RowId> := map[];
      NothingInserted(minted);
      for i := 0 to |rows|
        invariant db.archive == old(db).archive && db.versions.Relational?
        invariant Inserted(rows[..i], db.products, db.components, db.versions.versions, componentByProduct, minted)
      {
        var row := rows[i];
        assert rows[..i + 1] == rows[..i] + [row];
        InsertedHas(rows[..i], db.products, db.components, db.versions.versions, componentByProduct, minted);
        if row.product !in componentByProduct {
          NameInserted(rows[..i], db.products, db.components, db.versions.versions, componentByProduct, minted,
                       row.product);
          var component := CreateProductAndComponent(row.product);
          componentByProduct := componentByProduct[row.product := component];
        }
        ghost var names := NamesOf(rows[..i]) + {row.product};
        if row.product in NamesOf(rows[..i]) {
          assert names == NamesOf(rows[..i]);
        }
        var id := NewUlid();
        ghost var versions := db.versions.versions;
        var version := VersionRow(id, componentByProduct[row.product], row.major, row.minor, row.patch, None,
                                  row.status);
        db := db.(versions := Relational(db.versions.versions + [version]));
        RowInserted(rows[..i], names, db.products, db.components, versions, componentByProduct, id, row, version);
      }
      assert rows[..|rows|] == rows;
      InsertedHas(rows, db.products, db.components, db.versions.versions, componentByProduct, minted);
    }
  }

  /** Every component belongs to a product of the table, as the schema's foreign key demands. */
  ghost predicate ReferencesHold(db: Database) {
    forall c :: c in db.components ==> exists p :: p in db.products && p.id == c.product
  }

  lemma NoProductsNoComponents(db: Database)
    requires ReferencesHold(db)
    ensures db.products == [] ==> db.components == []
  {
    if db.components != [] {
      assert db.components[0] in db.components;
      var p :| p in db.products && p.id == db.components[0].product;
    }
  }

  lemma ComponentsHaveProducts(names: set<string>, db: Database)
    requires OneComponentPerName(names, db.products, db.components)
    ensures ReferencesHold(db)
  {
  }

  // ----- The insertion loop -----

  /** The tables after a prefix of the rows, for the names that already have a component. */
  ghost predicate InsertedFor(rows: seq<LegacyRow>, names: set<string>, products: seq<ProductRow>,
                              components: seq<ComponentRow>,
                              versions: seq<VersionRow>, componentByProduct: map<string, RowId>, minted: RowId) {
    && Aligned(rows, products, components, versions)
    && OneComponentPerName(names, products, components)
    && componentByProduct.Keys == names
    && (forall n :: n in componentByProduct ==> OwnerName(products, components, componentByProduct[n]) == Some(n))
    && (forall p :: p in products ==> p.id < minted)
    && (forall c :: c in components ==> c.id < minted && c.product < minted)
    && (forall v :: v in versions ==> v.id < minted && v.component < minted)
    && (forall n :: n in componentByProduct ==> componentByProduct[n] < minted)
  }

  ghost predicate Inserted(rows: seq<LegacyRow>, products: seq<ProductRow>, components: seq<ComponentRow>,
                           versions: seq<VersionRow>, componentByProduct: map<string, RowId>, minted: RowId) {
    InsertedFor(rows, NamesOf(rows), products, components, versions, componentByProduct, minted)
  }

  lemma NothingInserted(minted: RowId)
    ensures Inserted([], [], [], [], map[], minted)
  {
  }

  lemma {:induction false} FreshProductKeepsNames(products: seq<ProductRow>, p: ProductRow, id: RowId)
    requires id != p.id
    ensures ProductName(products + [p], id) == ProductName(products, id)
  {
  }

  lemma {:induction false} FreshRowsKeepOwners(products: seq<ProductRow>, components: seq<ComponentRow>,
                                               p: ProductRow, id: RowId)
    requires forall c :: c in components ==> c.product != p.id
    ensures OwnerName(products + [p], components, id) == OwnerName(products, components, id)
    decreases |components|
  {
    if components != [] {
      FreshProductKeepsNames(products, p, components[|components| - 1].product);
      FreshRowsKeepOwners(products, components[..|components| - 1], p, id);
    }
  }

  lemma FreshComponentOwner(products: seq<ProductRow>, components: seq<ComponentRow>, p: ProductRow, c: ComponentRow,
                            id: RowId)
    requires forall x :: x in components ==> x.product != p.id
    requires c.product == p.id
    ensures OwnerName(products + [p], components + [c], id) ==
      if id == c.id then Some(p.name) else OwnerName(products, components, id)
  {
    assert (components + [c])[..|components|] == components;
    FreshRowsKeepOwners(products, components, p, id);
  }

  /** A new product and its default component extend the tables by one name. */
  lemma InsertedHas(rows: seq<LegacyRow>, products: seq<ProductRow>, components: seq<ComponentRow>,
                    versions: seq<VersionRow>, componentByProduct: map<string, RowId>, minted: RowId)
    requires Inserted(rows, products, components, versions, componentByProduct, minted)
    ensures componentByProduct.Keys == NamesOf(rows)
    ensures Aligned(rows, products, components, versions) && OneComponentPerName(NamesOf(rows), products, components)
  {
  }

  lemma NameInserted(rows: seq<LegacyRow>, products: seq<ProductRow>, components: seq<ComponentRow>,
                     versions: seq<VersionRow>, componentByProduct: map<string, RowId>, product: RowId, name: string)
    requires Inserted(rows, products, components, versions, componentByProduct, product)
    requires name !in componentByProduct
    ensures InsertedFor(rows, NamesOf(rows) + {name}, products + [ProductRow(product, name)],
                        components + [ComponentRow(product + 1, product, DEFAULT_COMPONENT_NAME,
                                                   DEFAULT_COMPONENT_KIND)],
                        versions, componentByProduct[name := product + 1], product + 2)
  {
    hide OneComponentPerName, OwnerName, NamesOf, Aligned;
    var p := ProductRow(product, name);
    var c := ComponentRow(product + 1, product, DEFAULT_COMPONENT_NAME, DEFAULT_COMPONENT_KIND);
    NamesExtend(NamesOf(rows), products, components, p, c);
    AlignedKept(rows, products, components, versions, p, c);
    var byProduct' := componentByProduct[name := product + 1];
    forall n | n in byProduct'
      ensures OwnerName(products + [p], components + [c], byProduct'[n]) == Some(n)
    {
      FreshComponentOwner(products, components, p, c, byProduct'[n]);
    }
  }

  lemma AlignedKept(rows: seq<LegacyRow>, products: seq<ProductRow>, components: seq<ComponentRow>,
                    versions: seq<VersionRow>, p: ProductRow, c: ComponentRow)
    requires Aligned(rows, products, components, versions) && c.product == p.id
    requires forall x :: x in components ==> x.product != p.id
    requires forall v :: v in versions ==> v.component != c.id
    ensures Aligned(rows, products + [p], components + [c], versions)
  {
    hide OwnerName;
    forall i | 0 <= i < |rows|
      ensures Represents(products + [p], components + [c], versions[i], rows[i])
    {
      assert versions[i] in versions && Represents(products, components, versions[i], rows[i]);
      FreshComponentOwner(products, components, p, c, versions[i].component);
    }
  }

  lemma OneMoreName(products: seq<ProductRow>, p: ProductRow)
    ensures forall n :: HasName(products + [p], n) <==> HasName(products, n) || n == p.name
  {
    forall n
      ensures HasName(products + [p], n) <==> HasName(products, n) || n == p.name
    {
      assert (products + [p])[|products|] == p;
      if HasName(products, n) {
        var i :| 0 <= i < |products| && products[i].name == n;
        assert (products + [p])[i] == products[i];
      }
    }
  }

  lemma NamesExtend(names: set<string>, products: seq<ProductRow>, components: seq<ComponentRow>, p: ProductRow,
                    c: ComponentRow)
    requires OneComponentPerName(names, products, components) && p.name !in names
    requires c == ComponentRow(c.id, p.id, DEFAULT_COMPONENT_NAME, DEFAULT_COMPONENT_KIND)
    requires forall x :: x in products ==> x.id < p.id
    requires forall x :: x in components ==> x.id < c.id
    ensures OneComponentPerName(names + {p.name}, products + [p], components + [c])
  {
    OneMoreName(products, p);
    NewRowsAreDistinct(names, products, components, p, c);
    hide HasName;
    var products', components' := products + [p], components + [c];
    forall i | 0 <= i < |components'|
      ensures components'[i] == ComponentRow(components'[i].id, products'[i].id, DEFAULT_COMPONENT_NAME,
                                             DEFAULT_COMPONENT_KIND)
    {
      assert i < |components| ==> components'[i] == components[i] && products'[i] == products[i];
    }
  }

  lemma NewRowsAreDistinct(names: set<string>, products: seq<ProductRow>, components: seq<ComponentRow>,
                           p: ProductRow, c: ComponentRow)
    requires OneComponentPerName(names, products, components) && p.name !in names
    requires forall x :: x in products ==> x.id < p.id
    requires forall x :: x in components ==> x.id < c.id
    ensures var products', components' := products + [p], components + [c];
      forall i, j :: 0 <= i < j < |products'| ==>
        && products'[i].name != products'[j].name
        && products'[i].id != products'[j].id && components'[i].id != components'[j].id
  {
  }

  /** One more version row, hung off the component its product name already has. */
  lemma RowInserted(rows: seq<LegacyRow>, names: set<string>, products: seq<ProductRow>, components: seq<ComponentRow>,
                    versions: seq<VersionRow>, componentByProduct: map<string, RowId>, id: RowId, row: LegacyRow,
                    v: VersionRow)
    requires InsertedFor(rows, names, products, components, versions, componentByProduct, id)
    requires names == NamesOf(rows) + {row.product}
    requires v == VersionRow(id, componentByProduct[row.product], row.major, row.minor, row.patch, None, row.status)
    ensures Inserted(rows + [row], products, components, versions + [v], componentByProduct, id + 1)
  {
    hide OneComponentPerName, Aligned, OwnerName;
    assert NamesOf(rows + [row]) == names;
    assert componentByProduct[row.product] < id;
    AlignedExtends(rows, products, components, versions, row, v);
  }

  lemma AlignedExtends(rows: seq<LegacyRow>, products: seq<ProductRow>, components: seq<ComponentRow>,
                       versions: seq<VersionRow>, row: LegacyRow, v: VersionRow)
    requires Aligned(rows, products, components, versions) && Represents(products, components, v, row)
    requires forall x :: x in versions ==> x.id < v.id
    ensures Aligned(rows + [row], products, components, versions + [v])
  {
    hide Represents;
    var versions' := versions + [v];
    forall i, j | 0 <= i < j < |versions'|
      ensures versions'[i].id != versions'[j].id
    {
      assert versions'[i] == versions[i] && versions[i] in versions;
    }
  }
}

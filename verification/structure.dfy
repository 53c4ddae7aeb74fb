/**
 * The database objects a snapshot holds, and the type policy of the readable
 * serializer: which types are never given a section of their own and which
 * containers show their nested objects in full.
 *
 * Java's class hierarchy is explicit data here: `Hierarchy` maps a class name
 * to the names of its proper supertypes (classes and interfaces), and
 * `IsAssignableFrom` is `Class.isAssignableFrom` over it.
 */
module Structure {
  import opened Wrappers
  import opened Sorting

  /** A class, by its fully qualified name (what `Class.getName()` returns). */
  type TypeName = string

  const SCHEMA: TypeName := "liquibase.structure.core.Schema"
  const CATALOG: TypeName := "liquibase.structure.core.Catalog"
  const COLUMN: TypeName := "liquibase.structure.core.Column"
  const TABLE: TypeName := "liquibase.structure.core.Table"
  const VIEW: TypeName := "liquibase.structure.core.View"
  const DATABASE_LEVEL_OBJECT: TypeName := "liquibase.structure.DatabaseLevelObject"
  const CATALOG_LEVEL_OBJECT: TypeName := "liquibase.structure.CatalogLevelObject"

  type Hierarchy = map<TypeName, set<TypeName>>

  /** `sup.isAssignableFrom(sub)`: `sub` is `sup` or one of its subtypes. */
  predicate IsAssignableFrom(h: Hierarchy, sup: TypeName, sub: TypeName)
  {
    sup == sub || (sub in h && sup in h[sub])
  }

  /** The two type sets of the serializer, which subclasses may extend. */
  datatype TypePolicy = TypePolicy(
    hierarchy: Hierarchy,
    skipDisplayingTypes: set<TypeName>,
    expandNestedTypes: set<TypeName>)

  /** The sets the serializer ships with: Schema, Catalog and Column are not listed; Table and View are expanded. */
  function DefaultPolicy(h: Hierarchy): (r: TypePolicy)
  {
    TypePolicy(h, {SCHEMA, CATALOG, COLUMN}, {TABLE, VIEW})
  }

  /**
   * `shouldSkipDisplayingType(type)`: true when `type.isAssignableFrom(s)`
   * for one of the skip types `s`, that is, when `type` is a skip type or one
   * of its supertypes.
   */
  predicate ShouldSkipDisplayingType(p: TypePolicy, t: TypeName): (r: bool)
    ensures t in p.skipDisplayingTypes ==> r
  {
    exists s :: s in p.skipDisplayingTypes && IsAssignableFrom(p.hierarchy, t, s)
  }

  /**
   * `shouldExpandNestedObject(container)`: true when the container's class
   * `isAssignableFrom` one of the expand types. Only the container's class is
   * consulted, never the nested value's.
   */
  predicate ShouldExpandNestedObject(p: TypePolicy, containerKind: TypeName): (r: bool)
    ensures containerKind in p.expandNestedTypes ==> r
  {
    exists e :: e in p.expandNestedTypes && IsAssignableFrom(p.hierarchy, containerKind, e)
  }

  /** The default policy suppresses exactly its three types, plus every supertype of one of them. */
  lemma DefaultSkipTypes(h: Hierarchy, t: TypeName)
    ensures ShouldSkipDisplayingType(DefaultPolicy(h), t) <==>
      t == SCHEMA || t == CATALOG || t == COLUMN
      || (SCHEMA in h && t in h[SCHEMA]) || (CATALOG in h && t in h[CATALOG]) || (COLUMN in h && t in h[COLUMN])
  {
    var p := DefaultPolicy(h);
    if t == SCHEMA || (SCHEMA in h && t in h[SCHEMA]) {
      assert SCHEMA in p.skipDisplayingTypes && IsAssignableFrom(h, t, SCHEMA);
    } else if t == CATALOG || (CATALOG in h && t in h[CATALOG]) {
      assert CATALOG in p.skipDisplayingTypes && IsAssignableFrom(h, t, CATALOG);
    } else if t == COLUMN || (COLUMN in h && t in h[COLUMN]) {
      assert COLUMN in p.skipDisplayingTypes && IsAssignableFrom(h, t, COLUMN);
    }
  }

  /**
   * The default policy expands the nested objects of a Table or a View, and of
   * any container class that is a supertype of one of them; a container whose
   * class only extends Table or View is not expanded.
   */
  lemma DefaultExpandTypes(h: Hierarchy, k: TypeName)
    ensures ShouldExpandNestedObject(DefaultPolicy(h), k) <==>
      k == TABLE || k == VIEW || (TABLE in h && k in h[TABLE]) || (VIEW in h && k in h[VIEW])
  {
    var p := DefaultPolicy(h);
    if k == TABLE || (TABLE in h && k in h[TABLE]) {
      assert TABLE in p.expandNestedTypes && IsAssignableFrom(h, k, TABLE);
    } else if k == VIEW || (VIEW in h && k in h[VIEW]) {
      assert VIEW in p.expandNestedTypes && IsAssignableFrom(h, k, VIEW);
    }
  }

  /**
   * Because the test asks `type.isAssignableFrom(skipType)`, a subclass of
   * Column is still listed, while a supertype of Column is not.
   */
  lemma SkipTestLooksUpward(sub: TypeName, sup: TypeName)
    requires sub != SCHEMA && sub != CATALOG && sub != COLUMN
    requires sup != SCHEMA && sup != CATALOG && sup != COLUMN && sup != sub
    ensures var h := map[sub := {COLUMN}, COLUMN := {sup}];
      !ShouldSkipDisplayingType(DefaultPolicy(h), sub) && ShouldSkipDisplayingType(DefaultPolicy(h), sup)
  {
    var h := map[sub := {COLUMN}, COLUMN := {sup}];
    DefaultSkipTypes(h, sub);
    DefaultSkipTypes(h, sup);
  }

  // ---------------------------------------------------------------------------
  // Objects

  datatype CatalogRef = CatalogRef(name: string)

  /**
   * A schema as the serializer sees it: its catalog (`getCatalog()`, possibly
   * null), its name, and the text of its `toString()`, by which schemas are
   * sorted. Two references are equal exactly when `Schema.equals` holds.
   */
  datatype SchemaRef = SchemaRef(catalog: Option<CatalogRef>, name: string, text: string)

  /** `schema.getCatalogName()` as a `StringBuilder` appends it: "null" when there is no catalog. */
  function CatalogNameText(s: SchemaRef): (r: string)
  {
    match s.catalog
    case Some(c) => c.name
    case None => "null"
  }

  /**
   * A `DatabaseObject`: its runtime class, `getName()`, `getSchema()`, the
   * catalog a `CatalogLevelObject` reports, `getSnapshotId()`, the text of its
   * `toString()`, the string its `compareTo` orders by, and its attributes
   * (`getAttributes()` with `getAttribute`).
   */
  datatype DbObject = DbObject(
    kind: TypeName,
    name: string,
    schema: Option<SchemaRef>,
    catalog: Option<CatalogRef>,
    snapshotId: Option<string>,
    display: string,
    orderKey: string,
    attributes: map<string, Value>)

  /** An attribute value, by the branch of the walker it takes. */
  datatype Value =
    | Null                            // null
    | Scalar(text: string)            // any other value, shown by its toString()
    | Nested(obj: DbObject)           // a DatabaseObject
    | ObjectList(items: seq<DbObject>)  // a collection whose first element is a DatabaseObject
    | ScalarList(texts: seq<string>)  // any other collection, by its elements' toString()

  predicate IsA(p: TypePolicy, x: DbObject, t: TypeName)
  {
    IsAssignableFrom(p.hierarchy, t, x.kind)
  }

  /** How the natural comparator sees each kind of element it sorts. */
  function NameView(n: string): (r: Sortable)
  {
    Comparable(n)
  }

  function ObjectView(x: DbObject): (r: Sortable)
  {
    Comparable(x.orderKey)
  }

  function TypeView(t: TypeName): (r: Sortable)
  {
    ClassValue(t)
  }

  // ---------------------------------------------------------------------------
  // The snapshot

  /** What the header reads from the database and its connection, and whether it supports schemas. */
  datatype Database = Database(
    url: string,
    productName: string,
    productVersion: string,
    userName: string,
    supportsSchemas: bool)

  /**
   * A `DatabaseSnapshot`: the database, the types its `SnapshotControl`
   * includes, the schemas it holds, and per type the objects `get(type)`
   * returns, in the iteration order of that set.
   */
  datatype Snapshot = Snapshot(
    database: Database,
    typesToInclude: set<TypeName>,
    schemas: seq<SchemaRef>,
    objects: map<TypeName, seq<DbObject>>)

  /** `snapshot.get(type)`: no objects for a type it did not collect. */
  function ObjectsOf(snap: Snapshot, t: TypeName): (r: seq<DbObject>)
  {
    if t in snap.objects then snap.objects[t] else []
  }
}

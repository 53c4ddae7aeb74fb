/**
 * The top-level `serialize(LiquibaseSerializable, boolean)`: a fixed header
 * with the database's identity and the included types, then one block per
 * schema in the order of the schemas' `toString()`, and finally every
 * carriage return standardised to a line feed.
 */
module SnapshotWriter {
  import opened Wrappers
  import opened Text
  import opened Sorting
  import opened Structure
  import opened AttributeWalker
  import opened SectionBuilder

  /** A run of `n` dashes. */
  function Dashes(n: nat): (r: string)
    ensures |r| == n && forall i :: 0 <= i < n ==> r[i] == '-'
  {
    if n == 0 then "" else Dashes(n - 1) + "-"
  }

  /** The number of dashes in the divider line. */
  const DIVIDER_WIDTH: nat := 65

  /** The line `addDivider` writes: sixty-five dashes and a line feed. */
  const DIVIDER: string := Dashes(DIVIDER_WIDTH) + "\n"

  /** The included types in the order the document lists them: by class name. */
  ghost function IncludedTypes(snap: Snapshot): (r: seq<TypeName>)
  {
    SortSpec(Enumerate(snap.typesToInclude), ByView(TypeView))
  }

  /** `Comparator.comparing(Schema::toString)`. */
  function SchemaKey(s: SchemaRef): (r: string)
  {
    s.text
  }

  function SourceLine(db: Database): (r: string)
  {
    "Database snapshot for " + db.url + "\n"
  }

  function TypeLine(db: Database): (r: string)
  {
    "Database type: " + db.productName + "\n"
  }

  function VersionLine(db: Database): (r: string)
  {
    "Database version: " + db.productVersion + "\n"
  }

  function UserLine(db: Database): (r: string)
  {
    "Database user: " + db.userName + "\n"
  }

  /** The included types, one per line, indented under their title. */
  function TypeListing(types: seq<TypeName>): (r: string)
  {
    "Included types:\n" + Indent(Join(types, "\n"), INDENT_LENGTH) + "\n"
  }

  /** The header: source, divider, database type, version and user, and the included types. */
  function Header(db: Database, types: seq<TypeName>): (r: string)
  {
    SourceLine(db) + DIVIDER + TypeLine(db) + VersionLine(db) + UserLine(db) + TypeListing(types)
  }

  /** The line that opens a schema's block; it names the schema only when the database supports schemas. */
  function SchemaHeading(db: Database, s: SchemaRef): (r: string)
  {
    if db.supportsSchemas then "\nCatalog & Schema: " + CatalogNameText(s) + " / " + s.name + "\n"
    else "\nCatalog: " + CatalogNameText(s) + "\n"
  }

  /**
   * With a catalog name and a schema name free of line feeds, a schema's
   * heading is one blank line and then a single line.
   */
  lemma SchemaHeadingIsOneLine(db: Database, s: SchemaRef)
    requires '\n' !in CatalogNameText(s) && '\n' !in s.name
    ensures var r := SchemaHeading(db, s);
      && |r| >= 2 && r[0] == '\n' && r[|r| - 1] == '\n'
      && forall i :: 0 < i < |r| - 1 ==> r[i] != '\n'
  {
    if db.supportsSchemas {
      var opening := "\nCatalog & Schema: ";
      assert '\n' !in opening[1..];
      FramedLine(opening, CatalogNameText(s), " / ", s.name);
    } else {
      var opening := "\nCatalog: ";
      assert '\n' !in opening[1..];
      FramedLine(opening, CatalogNameText(s), "", "");
      assert opening + CatalogNameText(s) + "" + "" == opening + CatalogNameText(s);
    }
  }

  /**
   * A text that opens with a line feed, ends with one, and has none in
   * between: the shape of a heading put together from four pieces.
   */
  lemma FramedLine(a: string, b: string, c: string, d: string)
    requires |a| >= 1 && a[0] == '\n' && '\n' !in a[1..]
    requires '\n' !in b && '\n' !in c && '\n' !in d
    ensures var r := a + b + c + d + "\n";
      && |r| >= 2 && r[0] == '\n' && r[|r| - 1] == '\n'
      && forall i :: 0 < i < |r| - 1 ==> r[i] != '\n'
  {
    var r := a + b + c + d + "\n";
    forall i | 0 < i < |r| - 1 ensures r[i] != '\n' {
      if i < |a| {
        assert r[i] == a[1..][i - 1];
      } else if i < |a| + |b| {
        assert r[i] == b[i - |a|];
      } else if i < |a| + |b| + |c| {
        assert r[i] == c[i - |a| - |b|];
      } else {
        assert r[i] == d[i - |a| - |b| - |c|];
      }
    }
  }

  /** The schema blocks in the order of `schemas`: each heading, then the schema's body indented. */
  ghost function SchemaBlocks(p: TypePolicy, snap: Snapshot, types: seq<TypeName>, schemas: seq<SchemaRef>)
    : (r: Result<string, SerializeError>)
  {
    if schemas == [] then Success("")
    else
      match SchemaBlocks(p, snap, types, schemas[..|schemas| - 1])
      case Failure(_) => Failure(NullCatalog)
      case Success(text) =>
        var s := schemas[|schemas| - 1];
        match SchemaBody(p, snap, s, types)
        case Failure(_) => Failure(NullCatalog)
        case Success(body) => Success(text + SchemaHeading(snap.database, s) + Indent(body, INDENT_LENGTH))
  }

  /** The document, or the failure the serializer reports as an `UnexpectedLiquibaseException`. */
  ghost function Document(p: TypePolicy, snap: Snapshot): (r: Result<string, SerializeError>)
  {
    var types := IncludedTypes(snap);
    match SchemaBlocks(p, snap, types, SortSpec(snap.schemas, SchemaKey))
    case Failure(_) => Failure(NullCatalog)
    case Success(blocks) => Success(NormalizeNewlines(Header(snap.database, types) + blocks))
  }

  // ---------------------------------------------------------------------------
  // The serializer

  /** `addDivider(buffer)`. */
  method AddDivider(buffer: TextBuffer)
    modifies buffer
    ensures buffer.content == old(buffer.content) + DIVIDER
  {
    buffer.Append(DIVIDER);
  }

  /** `serialize(snapshot, pretty)`; `pretty` plays no part. */
  method Serialize(p: TypePolicy, snap: Snapshot) returns (r: Result<string, SerializeError>)
    ensures r == Document(p, snap)
  {
    var buffer := new TextBuffer();
    var typeList := ListOfSet(snap.typesToInclude);
    TypesComparable(typeList);
    var sortedTypes := SortNatural(typeList, TypeView);
    if sortedTypes.Failure? {
      assert false;
    }
    var includedTypes := sortedTypes.value;
    SortedTypesAreIncludedTypes(snap, typeList);
    WriteHeader(buffer, snap.database, includedTypes);

    var schemas := SortWith(snap.schemas, SchemaKey);
    var blocks := WriteSchemaBlocks(p, snap, includedTypes, schemas);
    if blocks.Failure? {
      return Failure(NullCatalog);
    }
    buffer.Append(blocks.value);
    r := Success(NormalizeNewlines(buffer.content));
  }

  /** The header lines, appended to `buffer` one by one as the serializer writes them. */
  method WriteHeader(buffer: TextBuffer, database: Database, includedTypes: seq<TypeName>)
    requires buffer.content == ""
    modifies buffer
    ensures buffer.content == Header(database, includedTypes)
  {
    buffer.Append(SourceLine(database));
    assert buffer.content == SourceLine(database);
    AddDivider(buffer);
    buffer.Append(TypeLine(database));
    buffer.Append(VersionLine(database));
    buffer.Append(UserLine(database));
    buffer.Append(TypeListing(includedTypes));
  }

  /** The schema blocks in the order of `schemas`: for each schema in turn, its heading and its indented body. */
  method WriteSchemaBlocks(p: TypePolicy, snap: Snapshot, types: seq<TypeName>, schemas: seq<SchemaRef>)
    returns (r: Result<string, SerializeError>)
    ensures r == SchemaBlocks(p, snap, types, schemas)
  {
    var blocks := "";
    var i := 0;
    while i < |schemas|
      invariant 0 <= i <= |schemas|
      invariant SchemaBlocks(p, snap, types, schemas[..i]) == Success(blocks)
    {
      var schema := schemas[i];
      var heading := SchemaHeading(snap.database, schema);
      var body := WriteSchemaBody(p, snap, schema, types);
      if body.Failure? {
        SchemaBlocksPrefixFailure(p, snap, types, schemas, i + 1);
        return Failure(NullCatalog);
      }
      SchemaBlocksStep(p, snap, types, schemas, i);
      blocks := blocks + heading + Indent(body.value, INDENT_LENGTH);
      i := i + 1;
    }
    assert schemas[..i] == schemas;
    r := Success(blocks);
  }

  /** One more schema extends the blocks by its heading and its indented body. */
  lemma SchemaBlocksStep(p: TypePolicy, snap: Snapshot, types: seq<TypeName>, schemas: seq<SchemaRef>, i: nat)
    requires i < |schemas|
    requires SchemaBlocks(p, snap, types, schemas[..i]).Success?
    requires SchemaBody(p, snap, schemas[i], types).Success?
    ensures SchemaBlocks(p, snap, types, schemas[..i + 1])
      == Success(SchemaBlocks(p, snap, types, schemas[..i]).value + SchemaHeading(snap.database, schemas[i])
                 + Indent(SchemaBody(p, snap, schemas[i], types).value, INDENT_LENGTH))
  {
    assert schemas[..i + 1][..i] == schemas[..i];
  }

  // ---------------------------------------------------------------------------
  // Helpers of the serializer's proof

  /** Classes compare by name, so sorting the included types never fails. */
  lemma TypesComparable(types: seq<TypeName>)
    ensures !SomePairIncomparable(types, TypeView)
  {
    forall i, j | 0 <= i < |types| && 0 <= j < |types| && i != j
      ensures NaturalCompare(TypeView(types[i]), TypeView(types[j])).Some?
    {
    }
  }

  lemma TypeKey(t: TypeName)
    ensures ByView(TypeView)(t) == t
  {
    var key := ByView(TypeView);
    assert key(t) == NaturalKey(TypeView(t));
  }

  lemma TypeKeyInjective(s: set<TypeName>)
    ensures forall x, y :: x in s && y in s && ByView(TypeView)(x) == ByView(TypeView)(y) ==> x == y
  {
    forall x, y | x in s && y in s && ByView(TypeView)(x) == ByView(TypeView)(y) ensures x == y {
      TypeKey(x);
      TypeKey(y);
    }
  }

  /** Whatever order the type set is copied in, sorting it gives the same list. */
  lemma SortedTypesAreIncludedTypes(snap: Snapshot, types: seq<TypeName>)
    requires multiset(types) == multiset(snap.typesToInclude)
    ensures SortSpec(types, ByView(TypeView)) == IncludedTypes(snap)
  {
    var key := ByView(TypeView);
    TypeKeyInjective(snap.typesToInclude);
    ListOfSetDistinct(types, snap.typesToInclude, key);
    SortIndependentOfOrder(types, Enumerate(snap.typesToInclude), key);
  }

  lemma {:induction false} SchemaBlocksPrefixFailure(p: TypePolicy, snap: Snapshot, types: seq<TypeName>, schemas: seq<SchemaRef>, k: nat)
    requires k <= |schemas| && SchemaBlocks(p, snap, types, schemas[..k]).Failure?
    ensures SchemaBlocks(p, snap, types, schemas) == Failure(NullCatalog)
  {
    if k == |schemas| {
      assert schemas[..k] == schemas;
    } else {
      var init := schemas[..|schemas| - 1];
      assert init[..k] == schemas[..k];
      SchemaBlocksPrefixFailure(p, snap, types, init, k);
    }
  }

  // ---------------------------------------------------------------------------
  // Properties of the document

  /**
   * The included types are listed once each, in ascending order of class
   * name; when no name holds a line feed, the listing splits back into them.
   */
  lemma IncludedTypesListed(snap: Snapshot)
    ensures var types := IncludedTypes(snap);
      && (forall t :: t in types <==> t in snap.typesToInclude)
      && |types| == |snap.typesToInclude|
      && (forall i, j :: 0 <= i < j < |types| ==> LexLess(types[i], types[j]))
      && ((types != [] && forall t :: t in snap.typesToInclude ==> '\n' !in t) ==>
            Split(Join(types, "\n"), '\n') == types)
  {
    var types := IncludedTypes(snap);
    var key := ByView(TypeView);
    var e := Enumerate(snap.typesToInclude);
    TypeKeyInjective(snap.typesToInclude);
    ListOfSetDistinct(e, snap.typesToInclude, key);
    SortSpecCorrect(e, key);
    KeysDistinctPermutation(e, types, key);
    SortedDistinctIsStrict(types, key);
    forall t ensures t in types <==> t in snap.typesToInclude {
      assert t in types <==> t in multiset(types);
    }
    assert |types| == |multiset(types)| == |multiset(snap.typesToInclude)| == |snap.typesToInclude|;
    forall i, j | 0 <= i < j < |types| ensures LexLess(types[i], types[j]) {
      TypeKey(types[i]);
      TypeKey(types[j]);
    }
    if types != [] && forall t :: t in snap.typesToInclude ==> '\n' !in t {
      forall k | 0 <= k < |types| ensures '\n' !in types[k] {
        assert types[k] in types;
      }
      SplitJoin(types, '\n');
    }
  }

  lemma HeaderHasNoCarriageReturn(db: Database, types: seq<TypeName>)
    requires '\r' !in db.url && '\r' !in db.productName && '\r' !in db.productVersion && '\r' !in db.userName
    requires forall k :: 0 <= k < |types| ==> '\r' !in types[k]
    ensures '\r' !in Header(db, types)
  {
    JoinExcludes(types, "\n", '\r');
    IndentExcludes(Join(types, "\n"), INDENT_LENGTH, '\r');
    DividerHasNoCarriageReturn();
    assert '\r' !in TypeListing(types);
    DatabaseLinesHaveNoCarriageReturn(db);
  }

  /** The lines naming the database add no carriage return of their own. */
  lemma DatabaseLinesHaveNoCarriageReturn(db: Database)
    requires '\r' !in db.url && '\r' !in db.productName && '\r' !in db.productVersion && '\r' !in db.userName
    ensures '\r' !in SourceLine(db) && '\r' !in TypeLine(db) && '\r' !in VersionLine(db) && '\r' !in UserLine(db)
  {
    assert '\r' !in "Database snapshot for ";
    assert '\r' !in "Database type: ";
    assert '\r' !in "Database version: ";
    assert '\r' !in "Database user: ";
  }

  lemma DividerHasNoCarriageReturn()
    ensures '\r' !in DIVIDER
  {
    assert DIVIDER[DIVIDER_WIDTH] == '\n';
  }

  /**
   * The document has no carriage return, and when the database's strings and
   * the type names have none either, it begins with the header unchanged.
   */
  lemma DocumentStartsWithHeader(p: TypePolicy, snap: Snapshot)
    requires Document(p, snap).Success?
    ensures '\r' !in Document(p, snap).value
    ensures var db := snap.database;
      ('\r' !in db.url && '\r' !in db.productName && '\r' !in db.productVersion && '\r' !in db.userName
       && forall t :: t in snap.typesToInclude ==> '\r' !in t) ==>
        var header := Header(db, IncludedTypes(snap));
        |header| <= |Document(p, snap).value| && Document(p, snap).value[..|header|] == header
  {
    var db := snap.database;
    var types := IncludedTypes(snap);
    if '\r' !in db.url && '\r' !in db.productName && '\r' !in db.productVersion && '\r' !in db.userName
       && forall t :: t in snap.typesToInclude ==> '\r' !in t {
      IncludedTypesListed(snap);
      forall k | 0 <= k < |types| ensures '\r' !in types[k] {
        assert types[k] in types;
      }
      var header := Header(db, types);
      HeaderHasNoCarriageReturn(db, types);
      var blocks := SchemaBlocks(p, snap, types, SortSpec(snap.schemas, SchemaKey)).value;
      NormalizeAppend(header, blocks);
      assert Document(p, snap).value == header + NormalizeNewlines(blocks);
    }
  }

  /** A catalog-level object with neither a schema nor a catalog. */
  predicate Orphan(p: TypePolicy, x: DbObject)
  {
    !IsA(p, x, DATABASE_LEVEL_OBJECT) && x.schema.None? && IsA(p, x, CATALOG_LEVEL_OBJECT) && x.catalog.None?
  }

  /** Whether a displayed included type holds an orphan. */
  ghost predicate HasOrphan(p: TypePolicy, snap: Snapshot)
  {
    exists t, k :: t in snap.typesToInclude && !ShouldSkipDisplayingType(p, t)
      && 0 <= k < |ObjectsOf(snap, t)| && Orphan(p, ObjectsOf(snap, t)[k])
  }

  lemma SchemaBodyFailure(p: TypePolicy, snap: Snapshot, s: SchemaRef, types: seq<TypeName>)
    ensures SchemaBody(p, snap, s, types).Failure? <==>
      exists t, k :: t in types && !ShouldSkipDisplayingType(p, t)
        && 0 <= k < |ObjectsOf(snap, t)| && Orphan(p, ObjectsOf(snap, t)[k])
  {
    SchemaPartsFailure(p, snap, s, types);
    if SchemaBody(p, snap, s, types).Failure? {
      var m :| 0 <= m < |types| && !ShouldSkipDisplayingType(p, types[m])
        && Filtered(p, ObjectsOf(snap, types[m]), s).Failure?;
      FilterFailsOnNullCatalog(p, ObjectsOf(snap, types[m]), s);
    }
    if exists t, k :: t in types && !ShouldSkipDisplayingType(p, t)
        && 0 <= k < |ObjectsOf(snap, t)| && Orphan(p, ObjectsOf(snap, t)[k]) {
      var t, k :| t in types && !ShouldSkipDisplayingType(p, t)
        && 0 <= k < |ObjectsOf(snap, t)| && Orphan(p, ObjectsOf(snap, t)[k]);
      FilterFailsOnNullCatalog(p, ObjectsOf(snap, t), s);
      var m :| 0 <= m < |types| && types[m] == t;
    }
  }

  lemma {:induction false} SchemaBlocksFailure(p: TypePolicy, snap: Snapshot, types: seq<TypeName>, schemas: seq<SchemaRef>)
    ensures SchemaBlocks(p, snap, types, schemas).Failure? <==>
      schemas != [] &&
      exists t, k :: t in types && !ShouldSkipDisplayingType(p, t) && 0 <= k < |ObjectsOf(snap, t)| && Orphan(p, ObjectsOf(snap, t)[k])
  {
    if schemas != [] {
      var init := schemas[..|schemas| - 1];
      SchemaBlocksFailure(p, snap, types, init);
      SchemaBodyFailure(p, snap, schemas[|schemas| - 1], types);
    }
  }

  /**
   * Serialization fails exactly when the snapshot has a schema and some
   * displayed included type holds a catalog-level object with neither schema
   * nor catalog; without schemas the filter never runs.
   */
  lemma DocumentFailure(p: TypePolicy, snap: Snapshot)
    ensures Document(p, snap).Failure? <==> snap.schemas != [] && HasOrphan(p, snap)
  {
    var types := IncludedTypes(snap);
    var schemas := SortSpec(snap.schemas, SchemaKey);
    SchemaBlocksFailure(p, snap, types, schemas);
    IncludedTypesListed(snap);
    SortSpecCorrect(snap.schemas, SchemaKey);
    assert |schemas| == |multiset(schemas)| == |multiset(snap.schemas)| == |snap.schemas|;
  }

  // ---------------------------------------------------------------------------
  // Determinism

  /**
   * Two snapshots that hold the same things, possibly listed in other orders:
   * the same database and types, the same schemas, and per type the same
   * objects. Within each list no two elements compare as equal.
   */
  ghost predicate SameContents(a: Snapshot, b: Snapshot)
  {
    && a.database == b.database
    && a.typesToInclude == b.typesToInclude
    && multiset(a.schemas) == multiset(b.schemas)
    && KeysDistinct(a.schemas, SchemaKey)
    && forall t :: multiset(ObjectsOf(a, t)) == multiset(ObjectsOf(b, t))
         && KeysDistinct(ObjectsOf(a, t), ByView(ObjectView))
  }



  lemma {:induction false} SameSchemaBody(p: TypePolicy, a: Snapshot, b: Snapshot, s: SchemaRef, types: seq<TypeName>)
    requires SameContents(a, b)
    ensures SchemaParts(p, a, s, types).Failure? <==> SchemaParts(p, b, s, types).Failure?
    ensures SchemaBody(p, a, s, types) == SchemaBody(p, b, s, types)
  {
    if types != [] {
      var init := types[..|types| - 1];
      var t := types[|types| - 1];
      SameSchemaBody(p, a, b, s, init);
      FilterReordered(p, ObjectsOf(a, t), ObjectsOf(b, t), t, s);
      if SchemaParts(p, a, s, init).Success? && !ShouldSkipDisplayingType(p, t)
         && Filtered(p, ObjectsOf(a, t), s).Success? {
        var pa := SchemaParts(p, a, s, init).value;
        var pb := SchemaParts(p, b, s, init).value;
        PartsTextAppend(p, pa, (t, Filtered(p, ObjectsOf(a, t), s).value));
        PartsTextAppend(p, pb, (t, Filtered(p, ObjectsOf(b, t), s).value));
      }
    }
  }

  lemma {:induction false} SameSchemaBlocks(p: TypePolicy, a: Snapshot, b: Snapshot, types: seq<TypeName>, schemas: seq<SchemaRef>)
    requires SameContents(a, b)
    ensures SchemaBlocks(p, a, types, schemas) == SchemaBlocks(p, b, types, schemas)
  {
    if schemas != [] {
      SameSchemaBlocks(p, a, b, types, schemas[..|schemas| - 1]);
      SameSchemaBody(p, a, b, schemas[|schemas| - 1], types);
    }
  }

  /**
   * The document does not depend on the order in which the snapshot hands out
   * its schemas and objects, as long as no two of them compare as equal.
   */
  lemma DocumentOrderIndependent(p: TypePolicy, a: Snapshot, b: Snapshot)
    requires SameContents(a, b)
    ensures Document(p, a) == Document(p, b)
  {
    SortIndependentOfOrder(a.schemas, b.schemas, SchemaKey);
    SameSchemaBlocks(p, a, b, IncludedTypes(a), SortSpec(a.schemas, SchemaKey));
  }
}

/**
 * The per-schema section: for every included type that is not suppressed, the
 * type's objects are narrowed to those that belong to the schema (removing
 * the others from a private copy while iterating it) and `outputObjects`
 * appends a type header and one entry per remaining object.
 */
module SectionBuilder {
  import opened Wrappers
  import opened Text
  import opened Sorting
  import opened Structure
  import opened AttributeWalker

  /**
   * The exception that aborts serialization: an object with neither a schema
   * nor a catalog that is a `CatalogLevelObject` makes `getCatalog().equals`
   * dereference null.
   */
  datatype SerializeError = NullCatalog

  // ---------------------------------------------------------------------------
  // Narrowing a type's objects to one schema

  /**
   * Whether the iterator keeps `x` for schema `s`: database-level objects are
   * always kept; an object with a schema is kept when that schema equals `s`;
   * an object without one is kept when it is catalog-level and its catalog
   * equals the schema's catalog.
   */
  function Keeps(p: TypePolicy, x: DbObject, s: SchemaRef): (r: Result<bool, SerializeError>)
  {
    if IsA(p, x, DATABASE_LEVEL_OBJECT) then Success(true)
    else
      match x.schema
      case Some(objectSchema) => Success(objectSchema == s)
      case None =>
        if !IsA(p, x, CATALOG_LEVEL_OBJECT) then Success(false)
        else
          match x.catalog
          case None => Failure(NullCatalog)
          case Some(c) => Success(Some(c) == s.catalog)
  }

  /** The list left after the iterator has visited `xs`, or the failure it ran into. */
  function Filtered(p: TypePolicy, xs: seq<DbObject>, s: SchemaRef): (r: Result<seq<DbObject>, SerializeError>)
  {
    if xs == [] then Success([])
    else
      match Filtered(p, xs[..|xs| - 1], s)
      case Failure(_) => Failure(NullCatalog)
      case Success(kept) =>
        var x := xs[|xs| - 1];
        match Keeps(p, x, s)
        case Failure(_) => Failure(NullCatalog)
        case Success(b) => Success(if b then kept + [x] else kept)
  }

  /**
   * Lines 64-80: copies the type's objects and walks the copy with a list
   * iterator, removing every object that does not belong to the schema.
   */
  method RetainSchemaObjects(p: TypePolicy, original: seq<DbObject>, schema: SchemaRef)
    returns (r: Result<seq<DbObject>, SerializeError>)
    ensures r == Filtered(p, original, schema)
  {
    var objects := original;
    var cursor := 0;
    ghost var visited := 0;
    ghost var kept: seq<DbObject> := [];
    while cursor < |objects|
      invariant 0 <= visited <= |original|
      invariant Filtered(p, original[..visited], schema) == Success(kept)
      invariant objects == kept + original[visited..]
      invariant cursor == |kept|
      decreases |objects| - cursor
    {
      var next := objects[cursor];
      assert next == original[visited];
      assert objects[..cursor] == kept;
      assert objects[cursor + 1..] == original[visited + 1..];
      assert objects == kept + [next] + original[visited + 1..];
      FilteredStep(p, original, visited, schema);
      if IsA(p, next, DATABASE_LEVEL_OBJECT) {
        cursor := cursor + 1;
        kept := kept + [next];
      } else if next.schema.None? {
        if !IsA(p, next, CATALOG_LEVEL_OBJECT) {
          objects := objects[..cursor] + objects[cursor + 1..];
        } else if next.catalog.None? {
          assert Keeps(p, original[visited], schema).Failure?;
          FilteredFailure(p, original, schema);
          assert Filtered(p, original, schema) == Failure(NullCatalog);
          return Failure(NullCatalog);
        } else if next.catalog != schema.catalog {
          objects := objects[..cursor] + objects[cursor + 1..];
        } else {
          cursor := cursor + 1;
          kept := kept + [next];
        }
      } else if next.schema.value != schema {
        objects := objects[..cursor] + objects[cursor + 1..];
      } else {
        cursor := cursor + 1;
        kept := kept + [next];
      }
      visited := visited + 1;
    }
    assert |objects| == |kept| + |original| - visited;
    assert original[..visited] == original;
    assert objects == kept;
    r := Success(objects);
  }

  /** One step of the iterator: the object at `i` is kept, dropped, or aborts the walk. */
  lemma FilteredStep(p: TypePolicy, xs: seq<DbObject>, i: nat, s: SchemaRef)
    requires i < |xs| && Filtered(p, xs[..i], s).Success?
    ensures var kept := Filtered(p, xs[..i], s).value;
      Filtered(p, xs[..i + 1], s) ==
        match Keeps(p, xs[i], s)
        case Failure(_) => Failure(NullCatalog)
        case Success(b) => Success(if b then kept + [xs[i]] else kept)
  {
    assert xs[..i + 1][..i] == xs[..i];
  }

  // ---------------------------------------------------------------------------
  // Writing one type's objects

  /** The entries of the sorted objects: each object's name, then its attribute block indented. */
  ghost function Entries(p: TypePolicy, xs: seq<DbObject>): (r: string)
  {
    if xs == [] then ""
    else
      var x := xs[|xs| - 1];
      Entries(p, xs[..|xs| - 1]) + x.name + "\n" + Indent(Block(p, x, None), INDENT_LENGTH) + "\n"
  }

  /** What `outputObjects` appends for type `t`: nothing for no objects, else a header and the indented entries. */
  ghost function TypeSection(p: TypePolicy, t: TypeName, objects: seq<DbObject>): (r: string)
  {
    var sorted := SortSpec(objects, ByView(ObjectView));
    if sorted == [] then ""
    else t + ":\n" + Indent(Entries(p, sorted), INDENT_LENGTH) + "\n"
  }

  /** Database objects are `Comparable`, so sorting them never fails. */
  lemma ObjectsComparable(objects: seq<DbObject>)
    ensures !SomePairIncomparable(objects, ObjectView)
  {
    forall i, j | 0 <= i < |objects| && 0 <= j < |objects| && i != j
      ensures NaturalCompare(ObjectView(objects[i]), ObjectView(objects[j])).Some?
    {
    }
  }

  /** `outputObjects(objects, type, catalogBuffer)`. */
  method OutputObjects(p: TypePolicy, objects: seq<DbObject>, t: TypeName, catalogBuffer: TextBuffer)
    modifies catalogBuffer
    ensures catalogBuffer.content == old(catalogBuffer.content) + TypeSection(p, t, objects)
  {
    ObjectsComparable(objects);
    var sorted := SortNatural(objects, ObjectView);
    if sorted.Failure? {
      assert false;
    }
    var databaseObjects := sorted.value;
    if |databaseObjects| != 0 {
      ghost var before := catalogBuffer.content;
      catalogBuffer.Append(t + ":\n");
      var typeBuffer := WriteEntries(p, databaseObjects);
      catalogBuffer.Append(Indent(typeBuffer, INDENT_LENGTH));
      catalogBuffer.Append("\n");
      assert before + (t + ":\n") + Indent(typeBuffer, INDENT_LENGTH) + "\n"
        == before + (t + ":\n" + Indent(typeBuffer, INDENT_LENGTH) + "\n");
    } else {
      assert databaseObjects == [];
    }
  }

  /** Lines 114-118: the type buffer, one entry per sorted object. */
  method WriteEntries(p: TypePolicy, databaseObjects: seq<DbObject>) returns (typeBuffer: string)
    ensures typeBuffer == Entries(p, databaseObjects)
  {
    typeBuffer := "";
    var i := 0;
    while i < |databaseObjects|
      invariant 0 <= i <= |databaseObjects|
      invariant typeBuffer == Entries(p, databaseObjects[..i])
    {
      var x := databaseObjects[i];
      assert databaseObjects[..i + 1][..i] == databaseObjects[..i];
      typeBuffer := typeBuffer + x.name + "\n";
      var block := SerializeObject(p, x, None);
      typeBuffer := typeBuffer + Indent(block, INDENT_LENGTH) + "\n";
      i := i + 1;
    }
    assert databaseObjects[..i] == databaseObjects;
  }

  // ---------------------------------------------------------------------------
  // One schema

  /**
   * The type sections of one schema, in the order of `types`: for every type
   * that is not suppressed, the type and the objects that remain for it.
   */
  function SchemaParts(p: TypePolicy, snap: Snapshot, s: SchemaRef, types: seq<TypeName>)
    : (r: Result<seq<(TypeName, seq<DbObject>)>, SerializeError>)
  {
    if types == [] then Success([])
    else
      match SchemaParts(p, snap, s, types[..|types| - 1])
      case Failure(_) => Failure(NullCatalog)
      case Success(parts) =>
        var t := types[|types| - 1];
        if ShouldSkipDisplayingType(p, t) then Success(parts)
        else
          match Filtered(p, ObjectsOf(snap, t), s)
          case Failure(_) => Failure(NullCatalog)
          case Success(kept) => Success(parts + [(t, kept)])
  }

  /** The text of the type sections, one after another. */
  ghost function PartsText(p: TypePolicy, parts: seq<(TypeName, seq<DbObject>)>): (r: string)
  {
    if parts == [] then ""
    else
      var part := parts[|parts| - 1];
      PartsText(p, parts[..|parts| - 1]) + TypeSection(p, part.0, part.1)
  }

  /** The catalog buffer of schema `s`, or the failure that aborts serialization. */
  ghost function SchemaBody(p: TypePolicy, snap: Snapshot, s: SchemaRef, types: seq<TypeName>): (r: Result<string, SerializeError>)
  {
    match SchemaParts(p, snap, s, types)
    case Failure(_) => Failure(NullCatalog)
    case Success(parts) => Success(PartsText(p, parts))
  }

  lemma PartsTextAppend(p: TypePolicy, parts: seq<(TypeName, seq<DbObject>)>, part: (TypeName, seq<DbObject>))
    ensures PartsText(p, parts + [part]) == PartsText(p, parts) + TypeSection(p, part.0, part.1)
  {
    assert (parts + [part])[..|parts|] == parts;
  }

  /** Lines 59-82: the loop over the included types, filling a fresh catalog buffer. */
  method WriteSchemaBody(p: TypePolicy, snap: Snapshot, schema: SchemaRef, includedTypes: seq<TypeName>)
    returns (r: Result<string, SerializeError>)
    ensures r == SchemaBody(p, snap, schema, includedTypes)
  {
    var catalogBuffer := new TextBuffer();
    var i := 0;
    while i < |includedTypes|
      modifies catalogBuffer
      invariant 0 <= i <= |includedTypes|
      invariant SchemaParts(p, snap, schema, includedTypes[..i]).Success?
      invariant catalogBuffer.content == PartsText(p, SchemaParts(p, snap, schema, includedTypes[..i]).value)
    {
      var t := includedTypes[i];
      assert includedTypes[..i + 1][..i] == includedTypes[..i];
      ghost var parts := SchemaParts(p, snap, schema, includedTypes[..i]).value;
      if ShouldSkipDisplayingType(p, t) {
        i := i + 1;
        continue;
      }
      var objects := RetainSchemaObjects(p, ObjectsOf(snap, t), schema);
      if objects.Failure? {
        assert Filtered(p, ObjectsOf(snap, includedTypes[i]), schema).Failure?;
        SchemaPartsFailure(p, snap, schema, includedTypes);
        return Failure(NullCatalog);
      }
      OutputObjects(p, objects.value, t, catalogBuffer);
      PartsTextAppend(p, parts, (t, objects.value));
      i := i + 1;
    }
    assert includedTypes[..i] == includedTypes;
    r := Success(catalogBuffer.content);
  }

  // ---------------------------------------------------------------------------
  // Properties of the filter

  lemma {:induction false} FilteredFailure(p: TypePolicy, xs: seq<DbObject>, s: SchemaRef)
    ensures Filtered(p, xs, s).Failure? <==> exists k :: 0 <= k < |xs| && Keeps(p, xs[k], s).Failure?
    ensures Filtered(p, xs, s).Failure? ==> Filtered(p, xs, s) == Failure(NullCatalog)
  {
    if xs != [] {
      var init := xs[..|xs| - 1];
      FilteredFailure(p, init, s);
      if exists k :: 0 <= k < |init| && Keeps(p, init[k], s).Failure? {
        var k :| 0 <= k < |init| && Keeps(p, init[k], s).Failure?;
        assert xs[k] == init[k];
      }
      if exists k :: 0 <= k < |xs| && Keeps(p, xs[k], s).Failure? {
        var k :| 0 <= k < |xs| && Keeps(p, xs[k], s).Failure?;
        if k < |init| {
          assert init[k] == xs[k];
        }
      }
    }
  }

  /**
   * Filtering fails exactly when an object would make `getCatalog()` dereference
   * null: not database-level, no schema, catalog-level, and no catalog.
   */
  lemma FilterFailsOnNullCatalog(p: TypePolicy, xs: seq<DbObject>, s: SchemaRef)
    ensures Filtered(p, xs, s).Failure? <==>
      exists k :: 0 <= k < |xs| && !IsA(p, xs[k], DATABASE_LEVEL_OBJECT) && xs[k].schema.None?
        && IsA(p, xs[k], CATALOG_LEVEL_OBJECT) && xs[k].catalog.None?
  {
    FilteredFailure(p, xs, s);
  }

  /** Filtering a concatenation filters each part: the kept objects stay in their original order. */
  lemma {:induction false} FilteredConcat(p: TypePolicy, xs: seq<DbObject>, ys: seq<DbObject>, s: SchemaRef)
    requires Filtered(p, xs + ys, s).Success?
    ensures Filtered(p, xs, s).Success? && Filtered(p, ys, s).Success?
    ensures Filtered(p, xs + ys, s).value == Filtered(p, xs, s).value + Filtered(p, ys, s).value
  {
    if ys == [] {
      assert xs + ys == xs;
    } else {
      var yInit := ys[..|ys| - 1];
      var y := ys[|ys| - 1];
      assert (xs + ys)[..|xs + ys| - 1] == xs + yInit;
      assert (xs + ys)[|xs + ys| - 1] == y;
      FilteredConcat(p, xs, yInit, s);
    }
  }

  /**
   * After filtering, an object stays exactly when `Keeps` says so, and as
   * often as it occurs in the original list.
   */
  lemma {:induction false} FilteredCounts(p: TypePolicy, xs: seq<DbObject>, s: SchemaRef)
    requires Filtered(p, xs, s).Success?
    ensures forall x ::
      multiset(Filtered(p, xs, s).value)[x] == (if Keeps(p, x, s) == Success(true) then multiset(xs)[x] else 0)
  {
    if xs != [] {
      var init := xs[..|xs| - 1];
      var last := xs[|xs| - 1];
      FilteredCounts(p, init, s);
      assert xs == init + [last];
    }
  }

  /**
   * The membership rule of the filter, with the outcome of `Keeps` written
   * out: an object remains exactly when it is database-level, or its schema is
   * the current schema, or it has no schema and is catalog-level with the
   * schema's catalog.
   */
  lemma FilterMembership(p: TypePolicy, xs: seq<DbObject>, s: SchemaRef, x: DbObject)
    requires Filtered(p, xs, s).Success?
    ensures x in Filtered(p, xs, s).value <==>
      x in xs &&
      (|| IsA(p, x, DATABASE_LEVEL_OBJECT)
       || x.schema == Some(s)
       || (x.schema.None? && IsA(p, x, CATALOG_LEVEL_OBJECT) && x.catalog.Some? && x.catalog == s.catalog))
  {
    FilteredCounts(p, xs, s);
    assert x in Filtered(p, xs, s).value <==> multiset(Filtered(p, xs, s).value)[x] > 0;
    assert x in xs <==> multiset(xs)[x] > 0;
  }

  /** Objects whose comparator keys differ stay apart after filtering. */
  lemma {:induction false} FilteredKeysDistinct(p: TypePolicy, xs: seq<DbObject>, s: SchemaRef, key: DbObject -> string)
    requires Filtered(p, xs, s).Success? && KeysDistinct(xs, key)
    ensures KeysDistinct(Filtered(p, xs, s).value, key)
  {
    if xs != [] {
      var init := xs[..|xs| - 1];
      var last := xs[|xs| - 1];
      FilteredKeysDistinct(p, init, s, key);
      FilteredCounts(p, init, s);
      var kept := Filtered(p, init, s).value;
      forall k | 0 <= k < |kept| ensures key(kept[k]) != key(last) {
        assert kept[k] in multiset(kept);
        assert kept[k] in multiset(init);
        var m :| 0 <= m < |init| && init[m] == kept[k];
        assert xs[m] == init[m];
      }
      KeysDistinctAppend(kept, last, key);
    }
  }

  // ---------------------------------------------------------------------------
  // Properties of a type section

  /** A type gets a header, and any text at all, exactly when objects remain for it. */
  lemma TypeSectionHeader(p: TypePolicy, t: TypeName, objects: seq<DbObject>)
    ensures TypeSection(p, t, objects) == "" <==> objects == []
    ensures objects != [] ==>
      var text := TypeSection(p, t, objects);
      |text| > |t| + 2 && text[..|t| + 2] == t + ":\n" && text[|text| - 1] == '\n'
  {
    var sorted := SortSpec(objects, ByView(ObjectView));
    SortSpecCorrect(objects, ByView(ObjectView));
    assert |sorted| == |multiset(sorted)| == |multiset(objects)| == |objects|;
    if objects != [] {
      var text := TypeSection(p, t, objects);
      assert text == (t + ":\n") + (Indent(Entries(p, sorted), INDENT_LENGTH) + "\n");
    }
  }

  /**
   * The section does not depend on the order the snapshot returned the
   * objects in, as long as no two of them compare as equal.
   */
  lemma TypeSectionOrderIndependent(p: TypePolicy, t: TypeName, a: seq<DbObject>, b: seq<DbObject>)
    requires multiset(a) == multiset(b) && KeysDistinct(a, ByView(ObjectView))
    ensures TypeSection(p, t, a) == TypeSection(p, t, b)
  {
    SortIndependentOfOrder(a, b, ByView(ObjectView));
  }

  // ---------------------------------------------------------------------------
  // Properties of a schema's body

  /**
   * The parts of a schema are exactly the included types that are not
   * suppressed, each with the objects that remain for it.
   */
  lemma {:induction false} SchemaPartsCharacterization(p: TypePolicy, snap: Snapshot, s: SchemaRef, types: seq<TypeName>)
    requires SchemaParts(p, snap, s, types).Success?
    ensures var parts := SchemaParts(p, snap, s, types).value;
      forall t, kept :: (t, kept) in parts <==>
        t in types && !ShouldSkipDisplayingType(p, t) && Filtered(p, ObjectsOf(snap, t), s) == Success(kept)
  {
    if types != [] {
      var init := types[..|types| - 1];
      SchemaPartsCharacterization(p, snap, s, init);
      assert types == init + [types[|types| - 1]];
    }
  }

  /** A suppressed type never gets a header: every part belongs to a type that is displayed. */
  lemma SuppressedTypesHaveNoSection(p: TypePolicy, snap: Snapshot, s: SchemaRef, types: seq<TypeName>)
    requires SchemaParts(p, snap, s, types).Success?
    ensures var parts := SchemaParts(p, snap, s, types).value;
      forall k :: 0 <= k < |parts| ==> !ShouldSkipDisplayingType(p, parts[k].0) && parts[k].0 in types
  {
    SchemaPartsCharacterization(p, snap, s, types);
    var parts := SchemaParts(p, snap, s, types).value;
    forall k | 0 <= k < |parts| ensures !ShouldSkipDisplayingType(p, parts[k].0) && parts[k].0 in types {
      assert (parts[k].0, parts[k].1) in parts;
    }
  }

  lemma {:induction false} SchemaPartsOrdered(p: TypePolicy, snap: Snapshot, s: SchemaRef, types: seq<TypeName>)
    requires SchemaParts(p, snap, s, types).Success?
    requires forall i, j :: 0 <= i < j < |types| ==> LexLess(types[i], types[j])
    ensures var parts := SchemaParts(p, snap, s, types).value;
      forall i, j :: 0 <= i < j < |parts| ==> LexLess(parts[i].0, parts[j].0)
  {
    if types != [] {
      var init := types[..|types| - 1];
      var last := types[|types| - 1];
      SchemaPartsOrdered(p, snap, s, init);
      SchemaPartsCharacterization(p, snap, s, init);
      var prev := SchemaParts(p, snap, s, init).value;
      forall k | 0 <= k < |prev| ensures LexLess(prev[k].0, last) {
        assert (prev[k].0, prev[k].1) in prev;
        var m :| 0 <= m < |init| && init[m] == prev[k].0;
        assert types[m] == init[m];
      }
    }
  }

  /** Building a schema's body fails exactly when some displayed type holds an object the filter trips over. */
  lemma {:induction false} SchemaPartsFailure(p: TypePolicy, snap: Snapshot, s: SchemaRef, types: seq<TypeName>)
    ensures SchemaParts(p, snap, s, types).Failure? <==>
      exists k :: 0 <= k < |types| && !ShouldSkipDisplayingType(p, types[k])
        && Filtered(p, ObjectsOf(snap, types[k]), s).Failure?
  {
    if types != [] {
      var init := types[..|types| - 1];
      SchemaPartsFailure(p, snap, s, init);
      if exists k :: 0 <= k < |init| && !ShouldSkipDisplayingType(p, init[k]) && Filtered(p, ObjectsOf(snap, init[k]), s).Failure? {
        var k :| 0 <= k < |init| && !ShouldSkipDisplayingType(p, init[k]) && Filtered(p, ObjectsOf(snap, init[k]), s).Failure?;
        assert types[k] == init[k];
      }
      if exists k :: 0 <= k < |types| && !ShouldSkipDisplayingType(p, types[k]) && Filtered(p, ObjectsOf(snap, types[k]), s).Failure? {
        var k :| 0 <= k < |types| && !ShouldSkipDisplayingType(p, types[k]) && Filtered(p, ObjectsOf(snap, types[k]), s).Failure?;
        if k < |init| {
          assert init[k] == types[k];
        }
      }
    }
  }

  /** Whether the filter fails does not depend on the order of the objects. */
  lemma FailureSurvivesReordering(p: TypePolicy, xa: seq<DbObject>, xb: seq<DbObject>, s: SchemaRef)
    requires multiset(xa) == multiset(xb)
    ensures Filtered(p, xa, s).Failure? ==> Filtered(p, xb, s).Failure?
  {
    FilteredFailure(p, xa, s);
    FilteredFailure(p, xb, s);
    if Filtered(p, xa, s).Failure? {
      var k :| 0 <= k < |xa| && Keeps(p, xa[k], s).Failure?;
      assert xa[k] in multiset(xb);
      var m :| 0 <= m < |xb| && xb[m] == xa[k];
    }
  }

  /**
   * The objects `snapshot.get(type)` returns come from a set, so their order
   * is arbitrary: reordering them changes neither whether the filter fails
   * nor the type's section.
   */
  lemma FilterReordered(p: TypePolicy, xa: seq<DbObject>, xb: seq<DbObject>, t: TypeName, s: SchemaRef)
    requires multiset(xa) == multiset(xb)
    ensures Filtered(p, xa, s).Failure? <==> Filtered(p, xb, s).Failure?
    ensures KeysDistinct(xa, ByView(ObjectView)) && Filtered(p, xa, s).Success? ==>
      TypeSection(p, t, Filtered(p, xa, s).value) == TypeSection(p, t, Filtered(p, xb, s).value)
  {
    FailureSurvivesReordering(p, xa, xb, s);
    FailureSurvivesReordering(p, xb, xa, s);
    if KeysDistinct(xa, ByView(ObjectView)) && Filtered(p, xa, s).Success? {
      var ka := Filtered(p, xa, s).value;
      var kb := Filtered(p, xb, s).value;
      FilteredCounts(p, xa, s);
      FilteredCounts(p, xb, s);
      assert multiset(ka) == multiset(kb);
      FilteredKeysDistinct(p, xa, s, ByView(ObjectView));
      TypeSectionOrderIndependent(p, t, ka, kb);
    }
  }
}

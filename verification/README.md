# Readable snapshot serializer, modelled in Dafny

This project models Liquibase's readable text serializer for database
snapshots, `StringSnapshotSerializerReadable`. Given a `DatabaseSnapshot`,
the serializer writes a fixed header with the database's identity and its
included types. It then writes one block per schema, ordered by the schema's
`toString()`. Inside each block come the objects of every displayed type
that belong to that schema, and each object is shown as an indented list of
`attribute: value` lines. Finally newlines are standardised: each carriage
return and line feed pair becomes one line feed, and then every remaining
carriage return becomes a line feed.

The model has these modules:

- `Wrappers`: the `Option` and `Result` types.
- `Text`: the string behaviour the serializer uses: `StringUtil.indent`,
  `StringUtil.join`, `String.replace`, `replaceFirst("\n$", "")`, and
  `StringBuilder` as the class `TextBuffer`.
- `Sorting`: both `sort` overloads and the comparator lambda with its
  `ClassCastException` path, `String.compareTo`, the copy of a set into an
  `ArrayList`, and the `TreeSet` used on collection attributes.
- `Structure`: the objects of a snapshot, and the type policy.
  - The type policy is the skip and expand sets, which subclasses may
    replace, so they are parameters here.
  - Java's class hierarchy is explicit data.
- `AttributeWalker`: `serialize(DatabaseObject, DatabaseObject)`, the
  per-object attribute walker.
- `SectionBuilder`: the per-schema filter, `outputObjects` and a
  schema's body.
- `SnapshotWriter`: `serialize(LiquibaseSerializable, boolean)` and
  `addDivider`.

Each imperative operation is a method, proved equal to a specification
function. The document's buffer and the catalog buffer of a schema are
`TextBuffer` objects, written by `WriteHeader`, `AddDivider`, `OutputObjects`
and `WriteSchemaBody`. The other loops build local string values: the
attribute walker (`WriteLines`), the collection join (`JoinElements`), the
entries of a type (`WriteEntries`) and the schema blocks
(`WriteSchemaBlocks`). `RetainSchemaObjects` narrows a list. The properties the serializer promises are lemmas
about those functions.

Where the code and the written design differ, the model follows the code:

- Objects that implement `DatabaseLevelObject` are kept in every schema's
  section. The `continue` at line 69 skips the removal, so such objects are
  not dropped.
- `shouldSkipDisplayingType(type)` asks `type.isAssignableFrom(skipType)`.
  It therefore suppresses the skip types and their supertypes, not their
  subtypes.
- Likewise, `shouldExpandNestedObject` expands a container whose class is
  Table, View or a supertype of one of them.
- Type sections are headed by the fully qualified class name
  (`Class.getName()`).

## Model

| member | source | states |
|---|---|---|
| SnapshotWriter.Serialize | liquibase-standard/src/main/java/liquibase/serializer/core/string/StringSnapshotSerializerReadable.java:32-93 | the document written is exactly `Document`: the header, then each schema's block in `toString()` order, with newlines normalised; it fails exactly when `Document` fails |
| SnapshotWriter.WriteHeader | liquibase-standard/src/main/java/liquibase/serializer/core/string/StringSnapshotSerializerReadable.java:38-47 | the six header pieces appended in order make up `Header` |
| SnapshotWriter.WriteSchemaBlocks | liquibase-standard/src/main/java/liquibase/serializer/core/string/StringSnapshotSerializerReadable.java:52-85 | for each schema in turn, its heading (with the schema name only when schemas are supported) and its indented body are appended; stops with the failure of the first body that fails |
| SnapshotWriter.AddDivider | liquibase-standard/src/main/java/liquibase/serializer/core/string/StringSnapshotSerializerReadable.java:207-209 | appends the divider line to the buffer and changes nothing else |
| SnapshotWriter.Dashes | liquibase-standard/src/main/java/liquibase/serializer/core/string/StringSnapshotSerializerReadable.java:208 | the divider is made of exactly the requested number of dashes |
| SnapshotWriter.DividerHasNoCarriageReturn | liquibase-standard/src/main/java/liquibase/serializer/core/string/StringSnapshotSerializerReadable.java:208 | the divider holds no carriage return |
| SnapshotWriter.SchemaHeading | liquibase-standard/src/main/java/liquibase/serializer/core/string/StringSnapshotSerializerReadable.java:53-57 | the heading of a schema's block; `SnapshotWriter.SchemaHeadingIsOneLine` states its shape |
| SnapshotWriter.SchemaHeadingIsOneLine | liquibase-standard/src/main/java/liquibase/serializer/core/string/StringSnapshotSerializerReadable.java:53-57 | with names free of line feeds, a schema's heading is a blank line followed by exactly one line |
| Structure.CatalogNameText | liquibase-standard/src/main/java/liquibase/serializer/core/string/StringSnapshotSerializerReadable.java:54 | `schema.getCatalogName()` as appended: the catalog's name, or "null" without a catalog; `SnapshotWriter.SchemaHeadingIsOneLine` uses it |
| SnapshotWriter.SchemaBlocksStep | liquibase-standard/src/main/java/liquibase/serializer/core/string/StringSnapshotSerializerReadable.java:52-84 | one more schema extends the blocks by exactly its heading and its indented body |
| SnapshotWriter.SchemaBlocksPrefixFailure | liquibase-standard/src/main/java/liquibase/serializer/core/string/StringSnapshotSerializerReadable.java:89-91 | once one schema's body fails, the whole serialization fails |
| SnapshotWriter.TypesComparable | liquibase-standard/src/main/java/liquibase/serializer/core/string/StringSnapshotSerializerReadable.java:215-216 | classes always compare by name, so sorting the included types never throws |
| SnapshotWriter.SortedTypesAreIncludedTypes | liquibase-standard/src/main/java/liquibase/serializer/core/string/StringSnapshotSerializerReadable.java:44-45 | sorting any list copy of the included-type set gives the same order |
| SnapshotWriter.IncludedTypesListed | liquibase-standard/src/main/java/liquibase/serializer/core/string/StringSnapshotSerializerReadable.java:45-47 | the header lists every included type exactly once, in strictly ascending class-name order, and splitting the listing at line feeds recovers the types |
| SnapshotWriter.HeaderHasNoCarriageReturn | liquibase-standard/src/main/java/liquibase/serializer/core/string/StringSnapshotSerializerReadable.java:38-47 | the header holds no carriage return when the database strings and type names hold none |
| SnapshotWriter.DatabaseLinesHaveNoCarriageReturn | liquibase-standard/src/main/java/liquibase/serializer/core/string/StringSnapshotSerializerReadable.java:38-42 | the source, type, version and user lines hold no carriage return when the database strings hold none |
| SnapshotWriter.DocumentStartsWithHeader | liquibase-standard/src/main/java/liquibase/serializer/core/string/StringSnapshotSerializerReadable.java:87 | the result holds no carriage return, and it begins with the header unchanged when the header held none |
| SnapshotWriter.SchemaBodyFailure | liquibase-standard/src/main/java/liquibase/serializer/core/string/StringSnapshotSerializerReadable.java:72-76 | a schema's body fails iff a displayed type holds a catalog-level object with neither a schema nor a catalog |
| SnapshotWriter.SchemaBlocksFailure | liquibase-standard/src/main/java/liquibase/serializer/core/string/StringSnapshotSerializerReadable.java:52-85 | the blocks fail iff there is at least one schema and a displayed type holds such an orphan |
| SnapshotWriter.DocumentFailure | liquibase-standard/src/main/java/liquibase/serializer/core/string/StringSnapshotSerializerReadable.java:32-93 | serialization fails iff the snapshot has a schema and a displayed included type holds such an orphan |
| SectionBuilder.FilterReordered | liquibase-standard/src/main/java/liquibase/serializer/core/string/StringSnapshotSerializerReadable.java:64-81 | reordering a type's objects never changes whether the filter fails; when the objects' sort keys are also distinct, it does not change the type's section either |
| SectionBuilder.FailureSurvivesReordering | liquibase-standard/src/main/java/liquibase/serializer/core/string/StringSnapshotSerializerReadable.java:64-81 | a failing filter fails on every reordering of its objects |
| SnapshotWriter.SameSchemaBody | liquibase-standard/src/main/java/liquibase/serializer/core/string/StringSnapshotSerializerReadable.java:59-83 | two snapshots related by `SnapshotWriter.SameContents` (the same database and included types, the same schemas in any order with distinct `toString()` texts, and per type the same objects in any order with distinct natural-order keys) give the same schema body |
| SnapshotWriter.SameSchemaBlocks | liquibase-standard/src/main/java/liquibase/serializer/core/string/StringSnapshotSerializerReadable.java:52-85 | two snapshots related by `SnapshotWriter.SameContents` give the same schema blocks |
| SnapshotWriter.DocumentOrderIndependent | liquibase-standard/src/main/java/liquibase/serializer/core/string/StringSnapshotSerializerReadable.java:44-50 | when the schema `toString()` texts are distinct and, for every type, the objects' natural-order keys are distinct, the document does not depend on the iteration order of the snapshot's sets and lists; with tied keys Java's output does depend on that order |
| SectionBuilder.Keeps | liquibase-standard/src/main/java/liquibase/serializer/core/string/StringSnapshotSerializerReadable.java:66-79 | whether one object stays in a schema's list, or the null-catalog failure; `SectionBuilder.FilterMembership` and `SectionBuilder.FilteredFailure` state the rule |
| SectionBuilder.Filtered | liquibase-standard/src/main/java/liquibase/serializer/core/string/StringSnapshotSerializerReadable.java:64-80 | the list left after the iterator loop; `SectionBuilder.FilterMembership` states which objects stay and `SectionBuilder.FilteredCounts` that they keep their multiplicities, and `SectionBuilder.FilteredConcat` that they keep their order (the filter of a concatenation is the concatenation of the filters) |
| SectionBuilder.RetainSchemaObjects | liquibase-standard/src/main/java/liquibase/serializer/core/string/StringSnapshotSerializerReadable.java:64-80 | removal through the list iterator leaves exactly `Filtered`, or fails on a catalog-level object without a schema or catalog |
| SectionBuilder.FilteredStep | liquibase-standard/src/main/java/liquibase/serializer/core/string/StringSnapshotSerializerReadable.java:66-80 | each element is kept, dropped or fails on its own, and the result grows accordingly |
| SectionBuilder.FilteredFailure | liquibase-standard/src/main/java/liquibase/serializer/core/string/StringSnapshotSerializerReadable.java:74 | the filter fails iff some element's test fails |
| SectionBuilder.FilterFailsOnNullCatalog | liquibase-standard/src/main/java/liquibase/serializer/core/string/StringSnapshotSerializerReadable.java:72-76 | the filter fails iff some element is a non-database-level, catalog-level object with no schema and no catalog |
| SectionBuilder.FilterMembership | liquibase-standard/src/main/java/liquibase/serializer/core/string/StringSnapshotSerializerReadable.java:66-79 | an object stays iff it is database-level, or its schema equals the current one, or it has no schema and is a catalog-level object whose catalog equals the schema's catalog |
| SectionBuilder.FilteredCounts | liquibase-standard/src/main/java/liquibase/serializer/core/string/StringSnapshotSerializerReadable.java:64-80 | kept objects keep their multiplicity and dropped ones vanish, so the result is a sub-multiset of the input |
| SectionBuilder.FilteredConcat | liquibase-standard/src/main/java/liquibase/serializer/core/string/StringSnapshotSerializerReadable.java:64-80 | the filter works element by element, so it distributes over concatenation |
| SectionBuilder.FilteredKeysDistinct | liquibase-standard/src/main/java/liquibase/serializer/core/string/StringSnapshotSerializerReadable.java:64-80 | filtering keeps distinct sort keys distinct |
| SectionBuilder.ObjectsComparable | liquibase-standard/src/main/java/liquibase/serializer/core/string/StringSnapshotSerializerReadable.java:110 | database objects are Comparable, so sorting them never throws |
| SectionBuilder.OutputObjects | liquibase-standard/src/main/java/liquibase/serializer/core/string/StringSnapshotSerializerReadable.java:109-122 | appends exactly the type's section to the catalog buffer and changes nothing else |
| SectionBuilder.WriteEntries | liquibase-standard/src/main/java/liquibase/serializer/core/string/StringSnapshotSerializerReadable.java:114-118 | each object contributes its name line, then its indented attribute block and a line feed |
| SectionBuilder.TypeSectionHeader | liquibase-standard/src/main/java/liquibase/serializer/core/string/StringSnapshotSerializerReadable.java:111-120 | a type section is empty iff there are no objects; otherwise it starts with the class name and a colon line and ends with a line feed |
| SectionBuilder.TypeSectionOrderIndependent | liquibase-standard/src/main/java/liquibase/serializer/core/string/StringSnapshotSerializerReadable.java:110 | when no two objects compare as equal (their natural-order keys are distinct), a type's section depends only on which objects it has, not on their order; with ties the stable sort keeps input order, so Java's output depends on it |
| SectionBuilder.WriteSchemaBody | liquibase-standard/src/main/java/liquibase/serializer/core/string/StringSnapshotSerializerReadable.java:59-83 | the catalog buffer holds, in included-type order, the section of every type that is not suppressed, or the first failure |
| SectionBuilder.SchemaPartsCharacterization | liquibase-standard/src/main/java/liquibase/serializer/core/string/StringSnapshotSerializerReadable.java:60-82 | a type contributes a part iff it is included and not suppressed, and the part holds exactly its filtered objects |
| SectionBuilder.SuppressedTypesHaveNoSection | liquibase-standard/src/main/java/liquibase/serializer/core/string/StringSnapshotSerializerReadable.java:61-63 | no suppressed type gets a section |
| SectionBuilder.SchemaPartsOrdered | liquibase-standard/src/main/java/liquibase/serializer/core/string/StringSnapshotSerializerReadable.java:60 | sections appear in ascending class-name order |
| SectionBuilder.SchemaPartsFailure | liquibase-standard/src/main/java/liquibase/serializer/core/string/StringSnapshotSerializerReadable.java:60-82 | a schema body fails iff the filter fails for some displayed type |
| SectionBuilder.PartsTextAppend | liquibase-standard/src/main/java/liquibase/serializer/core/string/StringSnapshotSerializerReadable.java:60-82 | each further part appends exactly its type section |
| AttributeWalker.SerializeObject | liquibase-standard/src/main/java/liquibase/serializer/core/string/StringSnapshotSerializerReadable.java:124-192 | the text written is `Block`: the attribute lines in order, then the last line feed removed as `replaceFirst("\n$", "")` removes it (the line feed before the carriage return when the text ends in a line feed, carriage return, line feed triple) |
| AttributeWalker.WriteLines | liquibase-standard/src/main/java/liquibase/serializer/core/string/StringSnapshotSerializerReadable.java:129-188 | the loop writes `attribute: value` and a line feed for each listed attribute that is shown, and skips name, schema and catalog |
| AttributeWalker.RenderAttribute | liquibase-standard/src/main/java/liquibase/serializer/core/string/StringSnapshotSerializerReadable.java:139-184 | each kind of value is rendered as the walker's branch for it does |
| AttributeWalker.JoinElements | liquibase-standard/src/main/java/liquibase/serializer/core/string/StringSnapshotSerializerReadable.java:165-176 | the de-duplicated, sorted elements are formatted and joined with line feeds |
| AttributeWalker.AttributeOrderFacts | liquibase-standard/src/main/java/liquibase/serializer/core/string/StringSnapshotSerializerReadable.java:128 | the attribute order holds every attribute name once, in strictly ascending order |
| AttributeWalker.SortedNamesAreAttributeOrder | liquibase-standard/src/main/java/liquibase/serializer/core/string/StringSnapshotSerializerReadable.java:128 | sorting any list of the attribute names gives that order |
| AttributeWalker.LinesOfMember | liquibase-standard/src/main/java/liquibase/serializer/core/string/StringSnapshotSerializerReadable.java:129-188 | a line (a, v) is produced for a listed attribute iff it is not an identity attribute and renders to v |
| AttributeWalker.LinesCharacterization | liquibase-standard/src/main/java/liquibase/serializer/core/string/StringSnapshotSerializerReadable.java:129-188 | a line (a, v) is in the block iff a is an attribute other than name, schema or catalog and its value renders to v |
| AttributeWalker.LinesAscending | liquibase-standard/src/main/java/liquibase/serializer/core/string/StringSnapshotSerializerReadable.java:128-129 | lines appear in strictly ascending attribute-name order |
| AttributeWalker.IsIdentityAttribute | liquibase-standard/src/main/java/liquibase/serializer/core/string/StringSnapshotSerializerReadable.java:130-138 | the `name`, `schema` and `catalog` attributes; `AttributeWalker.OmittedAttributes` and `AttributeWalker.LinesCharacterization` state that they produce no line |
| AttributeWalker.OmittedAttributes | liquibase-standard/src/main/java/liquibase/serializer/core/string/StringSnapshotSerializerReadable.java:130-185 | identity attributes, null values, empty collections and Schema values produce no line |
| AttributeWalker.ScalarAttributes | liquibase-standard/src/main/java/liquibase/serializer/core/string/StringSnapshotSerializerReadable.java:178-187 | a scalar attribute's line holds its text, and a non-empty scalar collection's line holds its elements in brackets, separated by commas |
| AttributeWalker.NestedObjectLine | liquibase-standard/src/main/java/liquibase/serializer/core/string/StringSnapshotSerializerReadable.java:145-160 | a nested object has a line iff it is not a back-reference; whether it is expanded depends on the container's class alone; expanded, the line holds its name and its own indented block with the container as parent; otherwise it holds its display text |
| AttributeWalker.IsBackReference | liquibase-standard/src/main/java/liquibase/serializer/core/string/StringSnapshotSerializerReadable.java:146-152 | the back-reference test; `AttributeWalker.BackReferenceOmitted` states that such a nested object produces no line and `AttributeWalker.TopLevelKeepsNestedObjects` that nothing is one without a parent |
| AttributeWalker.BackReferenceOmitted | liquibase-standard/src/main/java/liquibase/serializer/core/string/StringSnapshotSerializerReadable.java:146-152 | a nested object whose snapshot id is set and equals the parent's produces no line |
| AttributeWalker.TopLevelKeepsNestedObjects | liquibase-standard/src/main/java/liquibase/serializer/core/string/StringSnapshotSerializerReadable.java:147 | with no parent, the back-reference rule removes nothing |
| AttributeWalker.ElementTextsAt | liquibase-standard/src/main/java/liquibase/serializer/core/string/StringSnapshotSerializerReadable.java:166-176 | each element of an object collection is rendered by its name, and by its indented block too when the container is expanded |
| AttributeWalker.ObjectListLine | liquibase-standard/src/main/java/liquibase/serializer/core/string/StringSnapshotSerializerReadable.java:165-177 | an object collection is de-duplicated and sorted; its elements are rendered, joined with line feeds, indented and preceded by a line feed; no back-reference check applies, so the parent does not matter |
| AttributeWalker.ObjectListRendered | liquibase-standard/src/main/java/liquibase/serializer/core/string/StringSnapshotSerializerReadable.java:177 | a non-empty object collection's line is a line feed followed by its joined element texts, indented |
| AttributeWalker.LinesTextEndsWithNewline | liquibase-standard/src/main/java/liquibase/serializer/core/string/StringSnapshotSerializerReadable.java:186 | the lines text ends with a colon, a blank, the last value and a line feed |
| AttributeWalker.LastLineTriple | liquibase-standard/src/main/java/liquibase/serializer/core/string/StringSnapshotSerializerReadable.java:190 | the text ends in a line feed, carriage return, line feed triple only when the last value ends in a line feed and carriage return |
| AttributeWalker.BlockDropsFinalNewline | liquibase-standard/src/main/java/liquibase/serializer/core/string/StringSnapshotSerializerReadable.java:190 | an object with no lines gives an empty block; otherwise exactly one line feed is removed, and it is the final one when the last value does not end in a line feed and carriage return |
| AttributeWalker.StripAfterLastLine | liquibase-standard/src/main/java/liquibase/serializer/core/string/StringSnapshotSerializerReadable.java:190 | stripping text whose last line is `: v` and a line feed removes one line feed, the final one unless v ends in a line feed and carriage return |
| AttributeWalker.NamesComparable | liquibase-standard/src/main/java/liquibase/serializer/core/string/StringSnapshotSerializerReadable.java:213-214 | strings are Comparable, so sorting attribute names never throws |
| AttributeWalker.AttributeOrderAscending | liquibase-standard/src/main/java/liquibase/serializer/core/string/StringSnapshotSerializerReadable.java:128 | the attribute order lists attributes of the object in strictly ascending order |
| Structure.IsAssignableFrom | liquibase-standard/src/main/java/liquibase/serializer/core/string/StringSnapshotSerializerReadable.java:96 | `Class.isAssignableFrom` over the explicit hierarchy; `Structure.SkipTestLooksUpward` states the direction in which the skip test uses it |
| Structure.DefaultPolicy | liquibase-standard/src/main/java/liquibase/serializer/core/string/StringSnapshotSerializerReadable.java:23-24 | the shipped skip and expand sets; `Structure.DefaultSkipTypes` and `Structure.DefaultExpandTypes` state which types they skip and expand |
| Structure.ShouldSkipDisplayingType | liquibase-standard/src/main/java/liquibase/serializer/core/string/StringSnapshotSerializerReadable.java:95-97 | every listed skip type is itself skipped; `Structure.DefaultSkipTypes` states exactly which types the shipped policy skips |
| Structure.DefaultSkipTypes | liquibase-standard/src/main/java/liquibase/serializer/core/string/StringSnapshotSerializerReadable.java:95-97 | with the shipped set, a type is suppressed iff it is Schema, Catalog or Column, or a supertype of one of them |
| Structure.ShouldExpandNestedObject | liquibase-standard/src/main/java/liquibase/serializer/core/string/StringSnapshotSerializerReadable.java:194-196 | a container whose class is a listed expand type is expanded; `Structure.DefaultExpandTypes` states exactly which container classes the shipped policy expands |
| Structure.DefaultExpandTypes | liquibase-standard/src/main/java/liquibase/serializer/core/string/StringSnapshotSerializerReadable.java:194-196 | with the shipped set, a container is expanded iff its class is Table or View, or a supertype of one of them |
| Structure.SkipTestLooksUpward | liquibase-standard/src/main/java/liquibase/serializer/core/string/StringSnapshotSerializerReadable.java:95-97 | a subclass of Column is still listed, while a supertype of Column is suppressed |
| Sorting.SortNatural | liquibase-standard/src/main/java/liquibase/serializer/core/string/StringSnapshotSerializerReadable.java:211-221 | fails iff two elements cannot be compared by the lambda; otherwise returns the stable sort of the copy |
| Sorting.NaturalCompare | liquibase-standard/src/main/java/liquibase/serializer/core/string/StringSnapshotSerializerReadable.java:212-219 | Comparable values and classes compare by their text, and any other pair is an error |
| Sorting.SortWith | liquibase-standard/src/main/java/liquibase/serializer/core/string/StringSnapshotSerializerReadable.java:223-228 | the copy is sorted by the comparator and is a permutation of the input |
| Sorting.SortSpecCorrect | liquibase-standard/src/main/java/liquibase/serializer/core/string/StringSnapshotSerializerReadable.java:225 | the specification sort is ordered and a permutation |
| Sorting.SortIndependentOfOrder | liquibase-standard/src/main/java/liquibase/serializer/core/string/StringSnapshotSerializerReadable.java:224-225 | with distinct keys, the sorted list does not depend on the input's order |
| Sorting.StrictSortedUnique | liquibase-standard/src/main/java/liquibase/serializer/core/string/StringSnapshotSerializerReadable.java:225 | two strictly sorted permutations of each other are equal |
| Sorting.KeysDistinctPermutation | liquibase-standard/src/main/java/liquibase/serializer/core/string/StringSnapshotSerializerReadable.java:224 | distinct keys stay distinct under any permutation |
| Sorting.SortedDistinctIsStrict | liquibase-standard/src/main/java/liquibase/serializer/core/string/StringSnapshotSerializerReadable.java:225 | sorted with distinct keys means strictly ascending |
| Sorting.LexCompare | liquibase-standard/src/main/java/liquibase/serializer/core/string/StringSnapshotSerializerReadable.java:216 | `String.compareTo`; `Sorting.LexCompareAntisymmetric`, `Sorting.LexLessTransitive` and `Sorting.LexLessTotal` state that it is a total order |
| Sorting.LexCompareAntisymmetric | liquibase-standard/src/main/java/liquibase/serializer/core/string/StringSnapshotSerializerReadable.java:216 | `String.compareTo` is antisymmetric and is zero exactly on equal strings |
| Sorting.LexLessTransitive | liquibase-standard/src/main/java/liquibase/serializer/core/string/StringSnapshotSerializerReadable.java:216 | the string order is transitive |
| Sorting.LexLessTotal | liquibase-standard/src/main/java/liquibase/serializer/core/string/StringSnapshotSerializerReadable.java:216 | the string order is irreflexive, total and asymmetric |
| Sorting.KeepFirst | liquibase-standard/src/main/java/liquibase/serializer/core/string/StringSnapshotSerializerReadable.java:166 | what adding the elements to a `TreeSet` keeps; `Sorting.KeepFirstKeepsFirst` states that every element kept is the first input element with its key, and `Sorting.KeepFirstCorrect` that one element per key is kept |
| Sorting.TreeSetOf | liquibase-standard/src/main/java/liquibase/serializer/core/string/StringSnapshotSerializerReadable.java:166 | the iteration order of the `TreeSet`; `Sorting.TreeSetCorrect` states that it is strictly ascending, one element per key, each the first input element with its key |
| Sorting.TreeSetCorrect | liquibase-standard/src/main/java/liquibase/serializer/core/string/StringSnapshotSerializerReadable.java:166 | the `TreeSet` copy is strictly ascending, keeps one element per key, and each element is the first input element with that key (a later element comparing equal is not added) |
| Sorting.KeysOfPermutation | liquibase-standard/src/main/java/liquibase/serializer/core/string/StringSnapshotSerializerReadable.java:166 | reordering a collection does not change the set of its keys |
| Sorting.KeepFirstKeepsFirst | liquibase-standard/src/main/java/liquibase/serializer/core/string/StringSnapshotSerializerReadable.java:166 | every element the `TreeSet` keeps is the first element of the collection with its key, so a later element that compares equal is dropped |
| Sorting.KeepFirstCorrect | liquibase-standard/src/main/java/liquibase/serializer/core/string/StringSnapshotSerializerReadable.java:166 | de-duplication keeps one element per key and only input elements |
| Sorting.ListOfSet | liquibase-standard/src/main/java/liquibase/serializer/core/string/StringSnapshotSerializerReadable.java:224 | copying a set into a list gives each element exactly once |
| Sorting.ListOfSetDistinct | liquibase-standard/src/main/java/liquibase/serializer/core/string/StringSnapshotSerializerReadable.java:224 | a list copy of a set with an injective key has distinct keys |
| Text.IndentRoundTrip | liquibase-standard/src/main/java/liquibase/serializer/core/string/StringSnapshotSerializerReadable.java:83 | indentation loses nothing: removing the padding gives back the original text |
| Text.IndentLineStarts | liquibase-standard/src/main/java/liquibase/serializer/core/string/StringSnapshotSerializerReadable.java:117 | an indented text starts with the padding, and every line feed in it is followed by the padding |
| Text.SplitJoin | liquibase-standard/src/main/java/liquibase/serializer/core/string/StringSnapshotSerializerReadable.java:47 | splitting a join at its separator gives back the parts when no part holds the separator |
| Text.JoinExcludes | liquibase-standard/src/main/java/liquibase/serializer/core/string/StringSnapshotSerializerReadable.java:47 | a join holds a character only if a part or the separator does |
| Text.IndentExcludes | liquibase-standard/src/main/java/liquibase/serializer/core/string/StringSnapshotSerializerReadable.java:83 | indenting adds only spaces and line feeds |
| Text.ReplaceCr | liquibase-standard/src/main/java/liquibase/serializer/core/string/StringSnapshotSerializerReadable.java:87 | replacing carriage returns keeps the length and leaves no carriage return |
| Text.NormalizeNewlines | liquibase-standard/src/main/java/liquibase/serializer/core/string/StringSnapshotSerializerReadable.java:87 | the result holds no carriage return, and a text without one is unchanged |
| Text.NormalizeAppend | liquibase-standard/src/main/java/liquibase/serializer/core/string/StringSnapshotSerializerReadable.java:87 | normalisation distributes over a split that does not fall after a carriage return |
| Text.NormalizeIdempotent | liquibase-standard/src/main/java/liquibase/serializer/core/string/StringSnapshotSerializerReadable.java:87 | normalising twice is the same as normalising once |
| Text.ReplaceCrLfIdentity | liquibase-standard/src/main/java/liquibase/serializer/core/string/StringSnapshotSerializerReadable.java:87 | both replacements leave a text without carriage returns unchanged |
| Text.ReplaceCrLfAppend | liquibase-standard/src/main/java/liquibase/serializer/core/string/StringSnapshotSerializerReadable.java:87 | the pair replacement distributes over a split that does not fall after a carriage return |
| Text.ReplaceCrLfPairHead | liquibase-standard/src/main/java/liquibase/serializer/core/string/StringSnapshotSerializerReadable.java:87 | a leading carriage return and line feed pair becomes one line feed, whatever follows |
| Text.ReplaceCrLfSingleHead | liquibase-standard/src/main/java/liquibase/serializer/core/string/StringSnapshotSerializerReadable.java:87 | any other leading character is copied whatever follows, unless it is a lone carriage return ending the left part (a following line feed would pair with it) |
| Text.StripFinalNewline | liquibase-standard/src/main/java/liquibase/serializer/core/string/StringSnapshotSerializerReadable.java:190 | `replaceFirst("\n$", "")`; `Text.StripFinalNewlineRemovesOne` states that exactly one line feed goes when the text ends with one |
| Text.StripFinalNewlineRemovesOne | liquibase-standard/src/main/java/liquibase/serializer/core/string/StringSnapshotSerializerReadable.java:190 | a text ending in a line feed loses exactly one line feed; a text not ending in a line terminator is unchanged |
| Text.TextBuffer.Append | liquibase-standard/src/main/java/liquibase/serializer/core/string/StringSnapshotSerializerReadable.java:34 | appending to the builder extends its content by exactly the argument |

## Left out

- `write(DatabaseSnapshot, OutputStream)` (lines 230-233) is left out. It encodes bytes and writes to a stream, which is I/O.
- `getValidFileExtensions` and `getPriority` are left out. They return constants.
- The `pretty` flag of `serialize` is ignored, because the code never reads it.
- The database and connection lookups are fields of a `Database` value: URL, product name, product version, user name, and whether schemas are supported.
- The snapshot's `get(type)` results are a map from type to list.
- Exceptions: any exception becomes the single failure `NullCatalog` of the result.
  - It stands for the `NullPointerException` of `getCatalog().equals` on line 74, which is the one exception this code can raise from modelled data.
  - The message text and the wrapping into `UnexpectedLiquibaseException` are not modelled.
- `StringUtil.indent` and `StringUtil.join` are not part of this model. `Indent` and `Join` state their assumed behaviour: pad the start and every line feed with n spaces; join with a separator.
- `getSerializableFieldValue`: a scalar value is shown by its text and a scalar collection as `[a, b]`. A nested object that is not expanded is shown by a `display` string standing for its `toString()`. `AbstractDatabaseObject` is not part of this model, and a null result from it is not modelled.
- `compareTo` of database objects is an `orderKey` string per object. `Schema.toString()` and `Schema.equals` are the `text` field and value equality.
- `Catalog.equals` (line 74) is value equality of `CatalogRef`, which holds only the catalog's name.
- `String.compareTo` compares UTF-16 code units. The model compares `char` values, which are the same on strings without surrogate pairs.
- The lambda sort treats every `Comparable` as comparing by its key. Mixed classes of `Comparable` values, which throw at run time in Java, are not modelled.
- A collection whose first element is a database object is assumed to hold only database objects. The `obj.toString()` branch on line 174 is not modelled.
- `List.sort` (TimSort) is modelled as a stable insertion sort. Both are stable sorts by the same comparator, so they give the same list.
- The object graph is a finite tree of values, so no cycle can be represented. A back-reference is a separate value carrying the parent's snapshot id. Graphs on which Java recurses without end are outside the model: expanded cycles, including one-hop cycles through a collection attribute, which the back-reference check at line 147 does not cover.
- With fewer than two elements `List.sort` calls no comparator, so the model's natural sort cannot fail on such lists.
- The local `StringBuilder`s in the attribute walker, `outputObjects` and the schema loop are strings or a fresh `TextBuffer`. The loops over attributes, objects, types and schemas are their own methods (`WriteLines`, `WriteEntries`, `WriteSchemaBody`, `WriteSchemaBlocks`). The schema blocks are built in a local string and appended to the header in one step, which gives the same text.
- SectionBuilder.RetainSchemaObjects narrows a sequence value, reassigned at each removal, rather than removing through a `ListIterator` in place. The Java list is a fresh private copy of `snapshot.get(type)` (line 64), so no other holder sees the removals and no aliasing is lost.
- SnapshotWriter.WriteHeader is stated for an empty buffer, which is the only state in which the serializer writes the header.
- The command steps that call the serializer (`InternalDiffChangelogCommandStep`, `StatusCommandStep`) are not modelled. They are argument handling and I/O around it.

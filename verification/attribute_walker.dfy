/**
 * The per-object attribute walker, `serialize(DatabaseObject, DatabaseObject)`:
 * one line `attribute: value` per displayable attribute, in ascending
 * attribute-name order, with the last line feed of the block removed.
 *
 * `Block` is the specification of the walker; `SerializeObject` computes it
 * the way the serializer does, with a buffer and recursion.
 */
module AttributeWalker {
  import opened Wrappers
  import opened Text
  import opened Sorting
  import opened Structure

  const INDENT_LENGTH: nat := 4

  /** The identity fields that never produce a line of their own. */
  predicate IsIdentityAttribute(a: string)
  {
    a == "name" || a == "schema" || a == "catalog"
  }

  /**
   * A nested object that points back to the object being expanded: both have
   * a snapshot id and the ids are equal. Without a parent nothing is one.
   */
  predicate IsBackReference(x: DbObject, parent: Option<DbObject>)
  {
    parent.Some? && x.snapshotId.Some? && x.snapshotId == parent.value.snapshotId
  }

  /** The attribute names in the order the walker visits them: sorted by `String.compareTo`. */
  ghost function AttributeOrder(o: DbObject): (r: seq<string>)
  {
    SortSpec(Enumerate(o.attributes.Keys), ByView(NameView))
  }

  // ---------------------------------------------------------------------------
  // Specification

  /** The text the walker returns for `o`, expanded under `parent` (None at the top level). */
  ghost function Block(p: TypePolicy, o: DbObject, parent: Option<DbObject>): (r: string)
    decreases o, 5
  {
    StripFinalNewline(LinesText(Lines(p, o, parent)))
  }

  /** The lines of the block, as pairs of attribute name and value text. */
  ghost function Lines(p: TypePolicy, o: DbObject, parent: Option<DbObject>): (r: seq<(string, string)>)
    decreases o, 4
  {
    AttributeOrderFacts(o);
    LinesOf(p, o, parent, AttributeOrder(o))
  }

  /** The lines contributed by the attributes `names`, in their order. */
  ghost function LinesOf(p: TypePolicy, o: DbObject, parent: Option<DbObject>, names: seq<string>): (r: seq<(string, string)>)
    requires forall k :: 0 <= k < |names| ==> names[k] in o.attributes
    decreases o, 3, |names|
  {
    if names == [] then []
    else LinesOf(p, o, parent, names[..|names| - 1]) + LineFor(p, o, parent, names[|names| - 1])
  }

  /** The line of attribute `a`, if it has one. */
  ghost function LineFor(p: TypePolicy, o: DbObject, parent: Option<DbObject>, a: string): (r: seq<(string, string)>)
    requires a in o.attributes
    decreases o, 2, 0
  {
    if IsIdentityAttribute(a) then []
    else
      match RenderValue(p, o, a, parent)
      case None => []
      case Some(v) => [(a, v)]
  }

  /** The value text of attribute `a`, or None when the attribute is left out. */
  ghost function RenderValue(p: TypePolicy, o: DbObject, a: string, parent: Option<DbObject>): (r: Option<string>)
    requires a in o.attributes
    decreases o, 1, 1
  {
    match o.attributes[a]
    case Null => None
    case Scalar(t) => Some(t)
    case Nested(x) =>
      if IsA(p, x, SCHEMA) || IsBackReference(x, parent) then None
      else if ShouldExpandNestedObject(p, o.kind) then Some(x.name + "\n" + Indent(Block(p, x, Some(o)), INDENT_LENGTH))
      else Some(x.display)
    case ObjectList(items) =>
      if items == [] then None
      else Some("\n" + Indent(JoinedElements(p, o, a), INDENT_LENGTH))
    case ScalarList(texts) =>
      if texts == [] then None else Some("[" + Join(texts, ", ") + "]")
  }

  /** The join of the `TreeSet` of a collection attribute's elements, with line feeds between them. */
  ghost function JoinedElements(p: TypePolicy, o: DbObject, a: string): (r: string)
    requires a in o.attributes && o.attributes[a].ObjectList?
    decreases o, 1, 0
  {
    var items := o.attributes[a].items;
    TreeSetCorrect(items, ByView(ObjectView));
    Join(ElementTexts(p, o, a, TreeSetOf(items, ByView(ObjectView))), "\n")
  }

  /** The texts the join formatter produces for the elements of a collection attribute. */
  ghost function ElementTexts(p: TypePolicy, o: DbObject, a: string, elements: seq<DbObject>): (r: seq<string>)
    requires a in o.attributes && o.attributes[a].ObjectList?
    requires forall k :: 0 <= k < |elements| ==> elements[k] in o.attributes[a].items
    decreases o, 0, |elements|
  {
    if elements == [] then []
    else
      var x := elements[|elements| - 1];
      assert x in o.attributes[a].items;
      ElementTexts(p, o, a, elements[..|elements| - 1]) + [ElementText(p, o, a, x)]
  }

  /** The formatter's text for one element: its name, followed by its indented block when the container is expanded. */
  ghost function ElementText(p: TypePolicy, o: DbObject, a: string, x: DbObject): (r: string)
    requires a in o.attributes && o.attributes[a].ObjectList? && x in o.attributes[a].items
    decreases o, 0, 0
  {
    assert o.attributes[a] in o.attributes.Values;
    if ShouldExpandNestedObject(p, o.kind) then x.name + "\n" + Indent(Block(p, x, Some(o)), INDENT_LENGTH) else x.name
  }

  /** The lines joined into one text, each as `attribute: value` and a line feed. */
  function LinesText(lines: seq<(string, string)>): (r: string)
  {
    if lines == [] then ""
    else
      var l := lines[|lines| - 1];
      LinesText(lines[..|lines| - 1]) + l.0 + ": " + l.1 + "\n"
  }

  // ---------------------------------------------------------------------------
  // The walker

  /** `serialize(databaseObject, parentObject)`. */
  method SerializeObject(p: TypePolicy, o: DbObject, parent: Option<DbObject>) returns (r: string)
    ensures r == Block(p, o, parent)
    decreases o, 3
  {
    var names := ListOfSet(o.attributes.Keys);
    NamesComparable(names);
    var sorted := SortNatural(names, NameView);
    if sorted.Failure? {
      assert false;
    }
    var attributes := sorted.value;
    SortedNamesAreAttributeOrder(o, names);
    AttributeOrderMembers(o);
    var buffer := WriteLines(p, o, parent, attributes);
    r := StripFinalNewline(buffer);
  }

  /** The loop over the sorted attribute names, appending one line per displayable attribute. */
  method WriteLines(p: TypePolicy, o: DbObject, parent: Option<DbObject>, attributes: seq<string>) returns (buffer: string)
    requires forall k :: 0 <= k < |attributes| ==> attributes[k] in o.attributes
    ensures buffer == LinesText(LinesOf(p, o, parent, attributes))
    decreases o, 2
  {
    buffer := "";
    var i := 0;
    while i < |attributes|
      invariant 0 <= i <= |attributes|
      invariant buffer == LinesText(LinesOf(p, o, parent, attributes[..i]))
    {
      var attribute := attributes[i];
      assert attributes[..i + 1][..i] == attributes[..i];
      ghost var prev := LinesOf(p, o, parent, attributes[..i]);
      assert LinesOf(p, o, parent, attributes[..i + 1]) == prev + LineFor(p, o, parent, attribute);
      if IsIdentityAttribute(attribute) {
        assert prev + [] == prev;
        i := i + 1;
        continue;
      }
      var text := RenderAttribute(p, o, attribute, parent);
      if text.Some? {
        LinesTextAppend(prev, (attribute, text.value));
        buffer := buffer + attribute + ": " + text.value + "\n";
      } else {
        assert prev + [] == prev;
      }
      i := i + 1;
    }
    assert attributes[..i] == attributes;
  }

  /**
   * The value part of one pass of the walker's loop: the text appended after
   * `attribute: `, or None where the loop moves on without a line.
   */
  method RenderAttribute(p: TypePolicy, o: DbObject, attribute: string, parent: Option<DbObject>) returns (text: Option<string>)
    requires attribute in o.attributes
    ensures text == RenderValue(p, o, attribute, parent)
    decreases o, 1
  {
    match o.attributes[attribute] {
      case Null =>
        text := None;
      case Scalar(t) =>
        text := Some(t);
      case Nested(x) =>
        if IsA(p, x, SCHEMA) {
          text := None;
        } else if IsBackReference(x, parent) {
          text := None;
        } else if ShouldExpandNestedObject(p, o.kind) {
          var inner := SerializeObject(p, x, Some(o));
          text := Some(x.name + "\n" + Indent(inner, INDENT_LENGTH));
        } else {
          text := Some(x.display);
        }
      case ObjectList(items) =>
        if |items| == 0 {
          text := None;
        } else {
          var joined := JoinElements(p, o, attribute);
          text := Some("\n" + Indent(joined, INDENT_LENGTH));
        }
      case ScalarList(texts) =>
        if |texts| == 0 {
          text := None;
        } else {
          text := Some("[" + Join(texts, ", ") + "]");
        }
    }
  }

  /** The join of a collection attribute's elements: `new TreeSet<>(value)`, each element formatted. */
  method JoinElements(p: TypePolicy, o: DbObject, a: string) returns (r: string)
    requires a in o.attributes && o.attributes[a].ObjectList?
    ensures r == JoinedElements(p, o, a)
    decreases o, 0
  {
    var items := o.attributes[a].items;
    assert o.attributes[a] in o.attributes.Values;
    TreeSetCorrect(items, ByView(ObjectView));
    var elements := TreeSetOf(items, ByView(ObjectView));
    var parts := [];
    var k := 0;
    while k < |elements|
      invariant 0 <= k <= |elements|
      invariant parts == ElementTexts(p, o, a, elements[..k])
    {
      var x := elements[k];
      assert x in items;
      assert elements[..k + 1][..k] == elements[..k];
      var text;
      if ShouldExpandNestedObject(p, o.kind) {
        var inner := SerializeObject(p, x, Some(o));
        text := x.name + "\n" + Indent(inner, INDENT_LENGTH);
      } else {
        text := x.name;
      }
      assert text == ElementText(p, o, a, x);
      assert ElementTexts(p, o, a, elements[..k + 1]) == ElementTexts(p, o, a, elements[..k]) + [text];
      parts := parts + [text];
      k := k + 1;
    }
    assert elements[..k] == elements;
    r := Join(parts, "\n");
  }

  // ---------------------------------------------------------------------------
  // Properties

  lemma NameKey(a: string)
    ensures ByView(NameView)(a) == a
  {
    var key := ByView(NameView);
    assert key(a) == NaturalKey(NameView(a));
  }

  lemma LinesTextAppend(lines: seq<(string, string)>, l: (string, string))
    ensures LinesText(lines + [l]) == LinesText(lines) + l.0 + ": " + l.1 + "\n"
  {
    assert (lines + [l])[..|lines|] == lines;
  }

  /** Attribute names are strings, so the natural comparator never fails on them. */
  lemma NamesComparable(names: seq<string>)
    ensures !SomePairIncomparable(names, NameView)
  {
    forall i, j | 0 <= i < |names| && 0 <= j < |names| && i != j
      ensures NaturalCompare(NameView(names[i]), NameView(names[j])).Some?
    {
    }
  }

  /** Attribute names sort by a key that tells them apart. */
  lemma NameKeyInjective(s: set<string>)
    ensures forall x, y :: x in s && y in s && ByView(NameView)(x) == ByView(NameView)(y) ==> x == y
  {
    forall x, y | x in s && y in s && ByView(NameView)(x) == ByView(NameView)(y) ensures x == y {
      NameKey(x);
      NameKey(y);
    }
  }

  /** The walker visits every attribute once, in strictly ascending name order. */
  lemma AttributeOrderFacts(o: DbObject)
    ensures forall a :: a in AttributeOrder(o) <==> a in o.attributes
    ensures StrictlySortedBy(AttributeOrder(o), ByView(NameView))
  {
    var key := ByView(NameView);
    var e := Enumerate(o.attributes.Keys);
    var order := AttributeOrder(o);
    NameKeyInjective(o.attributes.Keys);
    ListOfSetDistinct(e, o.attributes.Keys, key);
    SortSpecCorrect(e, key);
    KeysDistinctPermutation(e, order, key);
    SortedDistinctIsStrict(order, key);
    forall a ensures a in order <==> a in o.attributes {
      assert a in order <==> a in multiset(order);
      assert a in o.attributes <==> a in multiset(o.attributes.Keys);
    }
  }

  /** Whatever order the attribute set is copied in, sorting it gives the same list. */
  lemma SortedNamesAreAttributeOrder(o: DbObject, names: seq<string>)
    requires multiset(names) == multiset(o.attributes.Keys)
    ensures SortSpec(names, ByView(NameView)) == AttributeOrder(o)
  {
    var key := ByView(NameView);
    NameKeyInjective(o.attributes.Keys);
    ListOfSetDistinct(names, o.attributes.Keys, key);
    SortIndependentOfOrder(names, Enumerate(o.attributes.Keys), key);
  }

  lemma {:induction false} LinesOfMember(p: TypePolicy, o: DbObject, parent: Option<DbObject>, names: seq<string>, a: string, v: string)
    requires forall k :: 0 <= k < |names| ==> names[k] in o.attributes
    ensures (a, v) in LinesOf(p, o, parent, names) <==>
      a in names && !IsIdentityAttribute(a) && RenderValue(p, o, a, parent) == Some(v)
  {
    if names != [] {
      var init := names[..|names| - 1];
      LinesOfMember(p, o, parent, init, a, v);
      assert names == init + [names[|names| - 1]];
    }
  }

  /**
   * A line `a: v` is in the block exactly when `a` is an attribute of the
   * object, not one of the identity fields, and its value renders as `v`.
   */
  lemma LinesCharacterization(p: TypePolicy, o: DbObject, parent: Option<DbObject>, a: string, v: string)
    ensures (a, v) in Lines(p, o, parent) <==>
      a in o.attributes && !IsIdentityAttribute(a) && RenderValue(p, o, a, parent) == Some(v)
  {
    AttributeOrderFacts(o);
    LinesOfMember(p, o, parent, AttributeOrder(o), a, v);
  }

  lemma {:induction false} LinesOfAscending(p: TypePolicy, o: DbObject, parent: Option<DbObject>, names: seq<string>)
    requires forall k :: 0 <= k < |names| ==> names[k] in o.attributes
    requires forall i, j :: 0 <= i < j < |names| ==> LexLess(names[i], names[j])
    ensures var ls := LinesOf(p, o, parent, names);
      forall i, j :: 0 <= i < j < |ls| ==> LexLess(ls[i].0, ls[j].0)
  {
    if names != [] {
      var init := names[..|names| - 1];
      var last := names[|names| - 1];
      LinesOfAscending(p, o, parent, init);
      var prev := LinesOf(p, o, parent, init);
      var line := LineFor(p, o, parent, last);
      assert LinesOf(p, o, parent, names) == prev + line;
      if line != [] {
        assert line == [(last, line[0].1)];
        forall i | 0 <= i < |prev| ensures LexLess(prev[i].0, last) {
          LinesOfMember(p, o, parent, init, prev[i].0, prev[i].1);
          assert prev[i] in prev;
          var m :| 0 <= m < |init| && init[m] == prev[i].0;
          assert names[m] == init[m];
        }
      }
    }
  }

  lemma AttributeOrderMembers(o: DbObject)
    ensures forall k :: 0 <= k < |AttributeOrder(o)| ==> AttributeOrder(o)[k] in o.attributes
  {
    AttributeOrderFacts(o);
  }

  lemma AttributeOrderAscending(o: DbObject)
    ensures var order := AttributeOrder(o);
      && (forall k :: 0 <= k < |order| ==> order[k] in o.attributes)
      && (forall i, j :: 0 <= i < j < |order| ==> LexLess(order[i], order[j]))
  {
    AttributeOrderFacts(o);
    var order := AttributeOrder(o);
    forall i, j | 0 <= i < j < |order| ensures LexLess(order[i], order[j]) {
      NameKey(order[i]);
      NameKey(order[j]);
    }
  }

  /** Attribute lines appear in strictly ascending attribute-name order. */
  lemma LinesAscending(p: TypePolicy, o: DbObject, parent: Option<DbObject>)
    ensures var ls := Lines(p, o, parent);
      forall i, j :: 0 <= i < j < |ls| ==> LexLess(ls[i].0, ls[j].0)
  {
    AttributeOrderAscending(o);
    assert Lines(p, o, parent) == LinesOf(p, o, parent, AttributeOrder(o));
    LinesOfAscending(p, o, parent, AttributeOrder(o));
  }

  /**
   * The identity fields, null values, empty collections and values that are
   * schemas never produce a line.
   */
  lemma OmittedAttributes(p: TypePolicy, o: DbObject, parent: Option<DbObject>, a: string)
    requires a in o.attributes
    requires || IsIdentityAttribute(a)
             || o.attributes[a] == Null
             || o.attributes[a] == ObjectList([])
             || o.attributes[a] == ScalarList([])
             || (o.attributes[a].Nested? && IsA(p, o.attributes[a].obj, SCHEMA))
    ensures forall v :: (a, v) !in Lines(p, o, parent)
  {
    forall v ensures (a, v) !in Lines(p, o, parent) {
      LinesCharacterization(p, o, parent, a, v);
    }
  }

  /** Any other scalar value, or a non-empty collection of scalars, gives exactly one line. */
  lemma ScalarAttributes(p: TypePolicy, o: DbObject, parent: Option<DbObject>, a: string)
    requires a in o.attributes && !IsIdentityAttribute(a)
    ensures o.attributes[a].Scalar? ==>
      forall v :: (a, v) in Lines(p, o, parent) <==> v == o.attributes[a].text
    ensures o.attributes[a].ScalarList? && o.attributes[a].texts != [] ==>
      forall v :: (a, v) in Lines(p, o, parent) <==> v == "[" + Join(o.attributes[a].texts, ", ") + "]"
  {
    forall v
      ensures (a, v) in Lines(p, o, parent) <==> a in o.attributes && !IsIdentityAttribute(a) && RenderValue(p, o, a, parent) == Some(v)
    {
      LinesCharacterization(p, o, parent, a, v);
    }
  }

  /**
   * A nested object that is not a schema produces a line unless it points back
   * to the parent; the line is the expanded form when the container's type is
   * an expand type and the object's compact form otherwise. The nested object's
   * own type plays no part in that choice.
   */
  lemma NestedObjectLine(p: TypePolicy, o: DbObject, parent: Option<DbObject>, a: string)
    requires a in o.attributes && !IsIdentityAttribute(a)
    requires o.attributes[a].Nested? && !IsA(p, o.attributes[a].obj, SCHEMA)
    ensures var x := o.attributes[a].obj;
      forall v :: (a, v) in Lines(p, o, parent) <==>
        && !IsBackReference(x, parent)
        && v == if ShouldExpandNestedObject(p, o.kind)
                then x.name + "\n" + Indent(Block(p, x, Some(o)), INDENT_LENGTH)
                else x.display
  {
    forall v
      ensures (a, v) in Lines(p, o, parent) <==> a in o.attributes && !IsIdentityAttribute(a) && RenderValue(p, o, a, parent) == Some(v)
    {
      LinesCharacterization(p, o, parent, a, v);
    }
  }

  /** The back-reference guard: a nested object carrying the parent's snapshot id gives no line. */
  lemma BackReferenceOmitted(p: TypePolicy, o: DbObject, parentObject: DbObject, a: string)
    requires a in o.attributes && o.attributes[a].Nested?
    requires o.attributes[a].obj.snapshotId.Some? && o.attributes[a].obj.snapshotId == parentObject.snapshotId
    ensures forall v :: (a, v) !in Lines(p, o, Some(parentObject))
  {
    forall v ensures (a, v) !in Lines(p, o, Some(parentObject)) {
      LinesCharacterization(p, o, Some(parentObject), a, v);
    }
  }

  /** At the top level (no parent) the guard removes nothing: every non-schema nested object gets its line. */
  lemma TopLevelKeepsNestedObjects(p: TypePolicy, o: DbObject, a: string)
    requires a in o.attributes && !IsIdentityAttribute(a)
    requires o.attributes[a].Nested? && !IsA(p, o.attributes[a].obj, SCHEMA)
    ensures exists v :: (a, v) in Lines(p, o, None)
  {
    var x := o.attributes[a].obj;
    var v := if ShouldExpandNestedObject(p, o.kind)
      then x.name + "\n" + Indent(Block(p, x, Some(o)), INDENT_LENGTH)
      else x.display;
    assert RenderValue(p, o, a, None) == Some(v);
    LinesCharacterization(p, o, None, a, v);
  }

  lemma {:induction false} ElementTextsAt(p: TypePolicy, o: DbObject, a: string, elements: seq<DbObject>)
    requires a in o.attributes && o.attributes[a].ObjectList?
    requires forall k :: 0 <= k < |elements| ==> elements[k] in o.attributes[a].items
    ensures var texts := ElementTexts(p, o, a, elements);
      && |texts| == |elements|
      && forall k :: 0 <= k < |elements| ==> texts[k] == ElementText(p, o, a, elements[k])
  {
    if elements != [] {
      var init := elements[..|elements| - 1];
      ElementTextsAt(p, o, a, init);
      forall k | 0 <= k < |init| ensures init[k] == elements[k] { }
    }
  }

  /**
   * A non-empty collection of objects gives one line: a line feed, then the
   * indented join of its elements. The elements are those of a `TreeSet`:
   * strictly ascending, one per distinct key of the collection, each taken
   * from it. Each element shows as its name, expanded under the container when
   * the container's type is an expand type. No back-reference guard applies,
   * so the line does not depend on the parent.
   */
  lemma ObjectListLine(p: TypePolicy, o: DbObject, parent: Option<DbObject>, a: string, otherParent: Option<DbObject>)
    requires a in o.attributes && !IsIdentityAttribute(a)
    requires o.attributes[a].ObjectList? && o.attributes[a].items != []
    ensures var items := o.attributes[a].items;
      var elements := TreeSetOf(items, ByView(ObjectView));
      && StrictlySortedBy(elements, ByView(ObjectView))
      && KeysOf(elements, ByView(ObjectView)) == KeysOf(items, ByView(ObjectView))
      && (forall k :: 0 <= k < |elements| ==> elements[k] in items)
      && var texts := ElementTexts(p, o, a, elements);
      && |texts| == |elements|
      && (forall k :: 0 <= k < |elements| ==>
            texts[k] == if ShouldExpandNestedObject(p, o.kind)
                        then elements[k].name + "\n" + Indent(Block(p, elements[k], Some(o)), INDENT_LENGTH)
                        else elements[k].name)
      && JoinedElements(p, o, a) == Join(texts, "\n")
      && (forall v :: (a, v) in Lines(p, o, parent) <==> v == "\n" + Indent(Join(texts, "\n"), INDENT_LENGTH))
      && (forall v :: (a, v) in Lines(p, o, parent) <==> (a, v) in Lines(p, o, otherParent))
  {
    var items := o.attributes[a].items;
    TreeSetCorrect(items, ByView(ObjectView));
    ElementTextsAt(p, o, a, TreeSetOf(items, ByView(ObjectView)));
    ObjectListRendered(p, o, parent, a);
    ObjectListRendered(p, o, otherParent, a);
  }

  /** The line of a non-empty object collection holds its joined elements, indented after a line feed. */
  lemma ObjectListRendered(p: TypePolicy, o: DbObject, parent: Option<DbObject>, a: string)
    requires a in o.attributes && !IsIdentityAttribute(a)
    requires o.attributes[a].ObjectList? && o.attributes[a].items != []
    ensures forall v :: (a, v) in Lines(p, o, parent) <==> v == "\n" + Indent(JoinedElements(p, o, a), INDENT_LENGTH)
  {
    forall v
      ensures (a, v) in Lines(p, o, parent) <==> a in o.attributes && !IsIdentityAttribute(a) && RenderValue(p, o, a, parent) == Some(v)
    {
      LinesCharacterization(p, o, parent, a, v);
    }
  }


  lemma {:induction false} LinesTextEndsWithNewline(lines: seq<(string, string)>)
    requires lines != []
    ensures var t := LinesText(lines);
      var l := lines[|lines| - 1];
      && |t| >= |l.1| + 3
      && t[|t| - 3 - |l.1|..] == ": " + l.1 + "\n"
  {
    var t := LinesText(lines);
    var l := lines[|lines| - 1];
    var head := LinesText(lines[..|lines| - 1]) + l.0;
    assert t == head + (": " + l.1 + "\n");
  }

  /** The last line ends in a line feed, carriage return, line feed triple only when its value ends in a line feed and carriage return. */
  lemma LastLineTriple(v: string)
    ensures var u := ": " + v + "\n";
      u[|u| - 3..] == "\n\r\n" ==> |v| >= 2 && v[|v| - 2..] == "\n\r"
  {
    var u := ": " + v + "\n";
    if |v| >= 2 {
      assert u[|u| - 3] == v[|v| - 2] && u[|u| - 2] == v[|v| - 1];
      assert v[|v| - 2..] == [v[|v| - 2], v[|v| - 1]];
    } else {
      assert u[|u| - 3] != '\n';
    }
  }

  /**
   * The block is the lines' text without its final line feed: the lines are
   * `attribute: value` each followed by a line feed, and the last line feed is
   * removed (unless the last value itself ends in a line feed and a carriage
   * return, where `$` matches earlier and that earlier line feed goes).
   */
  lemma BlockDropsFinalNewline(p: TypePolicy, o: DbObject, parent: Option<DbObject>)
    ensures Lines(p, o, parent) == [] ==> Block(p, o, parent) == ""
    ensures var ls := Lines(p, o, parent);
      var t := LinesText(ls);
      ls != [] ==>
        exists k :: 0 <= k < |t| && t[k] == '\n' && Block(p, o, parent) == t[..k] + t[k + 1..]
    ensures var ls := Lines(p, o, parent);
      ls != [] && !(|ls[|ls| - 1].1| >= 2 && ls[|ls| - 1].1[|ls[|ls| - 1].1| - 2..] == "\n\r") ==>
        Block(p, o, parent) + "\n" == LinesText(ls)
  {
    var ls := Lines(p, o, parent);
    var t := LinesText(ls);
    assert Block(p, o, parent) == StripFinalNewline(t);
    if ls == [] {
      assert t == "";
    } else {
      LinesTextEndsWithNewline(ls);
      StripAfterLastLine(t, ls[|ls| - 1].1);
    }
  }

  /**
   * Stripping text whose last line ends `: v` and a line feed removes one line
   * feed, and the final one unless `v` ends in a line feed and carriage return.
   */
  lemma StripAfterLastLine(t: string, v: string)
    requires |t| >= |v| + 3 && t[|t| - 3 - |v|..] == ": " + v + "\n"
    ensures exists k :: 0 <= k < |t| && t[k] == '\n' && StripFinalNewline(t) == t[..k] + t[k + 1..]
    ensures !(|v| >= 2 && v[|v| - 2..] == "\n\r") ==> StripFinalNewline(t) + "\n" == t
  {
    var u := ": " + v + "\n";
    assert t[|t| - 1] == u[|u| - 1];
    StripFinalNewlineRemovesOne(t);
    if !(|v| >= 2 && v[|v| - 2..] == "\n\r") {
      LastLineTriple(v);
      assert t[|t| - 3..] == u[|u| - 3..];
      assert t[..|t| - 1] + "\n" == t;
    }
  }

}

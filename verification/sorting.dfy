/**
 * Ordering for the serializer: Java's `String.compareTo`, the two `sort`
 * helpers of the serializer (a copy of the collection ordered by a comparator,
 * and the natural comparator that accepts `Comparable` values and classes), the
 * `TreeSet` that orders and de-duplicates collection attributes, and the copy of
 * a set into a list.
 *
 * Comparators are modelled by a key of type `string` per element: the elements
 * are ordered by `LexCompare` on their keys, exactly as `Comparator.comparing`
 * or a `compareTo` that compares one string would.
 */
module Sorting {
  import opened Wrappers

  /** `a.compareTo(b)` on Java strings: the first differing character decides, else the length. */
  function LexCompare(a: string, b: string): (r: int)
  {
    if a == [] || b == [] then |a| - |b|
    else if a[0] != b[0] then a[0] as int - b[0] as int
    else LexCompare(a[1..], b[1..])
  }

  predicate LexLess(a: string, b: string)
  {
    LexCompare(a, b) < 0
  }

  /** Swapping the operands negates the comparison, and only equal strings compare as 0. */
  lemma {:induction false} LexCompareAntisymmetric(a: string, b: string)
    ensures LexCompare(a, b) == -LexCompare(b, a)
    ensures LexCompare(a, b) == 0 <==> a == b
  {
    if a != [] && b != [] && a[0] == b[0] {
      LexCompareAntisymmetric(a[1..], b[1..]);
      assert a == [a[0]] + a[1..] && b == [b[0]] + b[1..];
    }
  }

  lemma {:induction false} LexLessTransitive(a: string, b: string, c: string)
    requires LexLess(a, b) && LexLess(b, c)
    ensures LexLess(a, c)
  {
    if a != [] && b != [] && c != [] && a[0] == b[0] && b[0] == c[0] {
      LexLessTransitive(a[1..], b[1..], c[1..]);
    }
  }

  /** `LexLess` is a strict total order on strings. */
  lemma LexLessTotal(a: string, b: string)
    ensures !LexLess(a, a)
    ensures a == b || LexLess(a, b) || LexLess(b, a)
    ensures !(LexLess(a, b) && LexLess(b, a))
  {
    LexCompareAntisymmetric(a, a);
    LexCompareAntisymmetric(a, b);
  }

  /** `a < b <= c` gives `a < c`, and `a <= b < c` gives `a < c`. */
  lemma LexMixedTransitive(a: string, b: string, c: string)
    ensures LexLess(a, b) && !LexLess(c, b) ==> LexLess(a, c)
    ensures !LexLess(b, a) && LexLess(b, c) ==> LexLess(a, c)
  {
    LexLessTotal(b, c);
    LexLessTotal(a, b);
    if LexLess(a, b) && LexLess(b, c) {
      LexLessTransitive(a, b, c);
    }
  }

  // ---------------------------------------------------------------------------
  // Sorting a copy by a key

  ghost predicate SortedBy<T>(s: seq<T>, key: T -> string)
  {
    forall i, j :: 0 <= i < j < |s| ==> !LexLess(key(s[j]), key(s[i]))
  }

  ghost predicate StrictlySortedBy<T>(s: seq<T>, key: T -> string)
  {
    forall i, j :: 0 <= i < j < |s| ==> LexLess(key(s[i]), key(s[j]))
  }

  /** No two positions of `s` hold elements the comparator calls equal. */
  ghost predicate KeysDistinct<T>(s: seq<T>, key: T -> string)
  {
    forall i, j :: 0 <= i < j < |s| ==> key(s[i]) != key(s[j])
  }

  /** Places `x` after every element of `s` whose key is not greater: stable insertion. */
  function Insert<T>(x: T, s: seq<T>, key: T -> string): (r: seq<T>)
  {
    if s == [] then [x]
    else if LexLess(key(x), key(s[0])) then [x] + s
    else [s[0]] + Insert(x, s[1..], key)
  }

  /**
   * The list `sort(objects, comparator)` returns: the elements in ascending key
   * order, elements with equal keys in their original order (`List.sort` is
   * stable, and the stable sorted order of a list is unique).
   */
  function SortSpec<T>(s: seq<T>, key: T -> string): (r: seq<T>)
  {
    if s == [] then []
    else Insert(s[|s| - 1], SortSpec(s[..|s| - 1], key), key)
  }

  lemma {:induction false} InsertPermutes<T>(x: T, s: seq<T>, key: T -> string)
    ensures multiset(Insert(x, s, key)) == multiset(s) + multiset{x}
  {
    if s != [] && !LexLess(key(x), key(s[0])) {
      InsertPermutes(x, s[1..], key);
      assert s == [s[0]] + s[1..];
    }
  }

  lemma {:induction false} InsertSorted<T>(x: T, s: seq<T>, key: T -> string)
    requires SortedBy(s, key)
    ensures SortedBy(Insert(x, s, key), key)
  {
    if s == [] {
    } else if LexLess(key(x), key(s[0])) {
      var r := [x] + s;
      forall i, j | 0 <= i < j < |r| ensures !LexLess(key(r[j]), key(r[i])) {
        if i == 0 {
          LexMixedTransitive(key(x), key(s[0]), key(r[j]));
          LexLessTotal(key(x), key(r[j]));
        }
      }
    } else {
      var tail := Insert(x, s[1..], key);
      assert SortedBy(s[1..], key);
      InsertSorted(x, s[1..], key);
      InsertPermutes(x, s[1..], key);
      var r := [s[0]] + tail;
      forall i, j | 0 <= i < j < |r| ensures !LexLess(key(r[j]), key(r[i])) {
        if i == 0 {
          var y := r[j];
          assert y in multiset(tail);
          assert y in multiset(s[1..]) || y == x;
          if y != x {
            var k :| 0 <= k < |s[1..]| && s[1..][k] == y;
            assert s[k + 1] == y;
          }
        }
      }
    }
  }

  /** The sorted copy is in ascending key order and holds exactly the input's elements. */
  lemma {:induction false} SortSpecCorrect<T>(s: seq<T>, key: T -> string)
    ensures SortedBy(SortSpec(s, key), key)
    ensures multiset(SortSpec(s, key)) == multiset(s)
  {
    if s != [] {
      var init := s[..|s| - 1];
      SortSpecCorrect(init, key);
      InsertSorted(s[|s| - 1], SortSpec(init, key), key);
      InsertPermutes(s[|s| - 1], SortSpec(init, key), key);
      assert s == init + [s[|s| - 1]];
    }
  }

  lemma {:induction false} InsertAt<T>(x: T, s: seq<T>, key: T -> string, j: nat)
    requires j <= |s|
    requires forall k :: 0 <= k < j ==> !LexLess(key(x), key(s[k]))
    requires j == |s| || LexLess(key(x), key(s[j]))
    ensures Insert(x, s, key) == s[..j] + [x] + s[j..]
  {
    if s != [] && j > 0 {
      InsertAt(x, s[1..], key, j - 1);
      assert s[1..][..j - 1] == s[1..j];
      assert s[1..][j - 1..] == s[j..];
      assert [s[0]] + s[1..j] == s[..j];
    }
  }

  /**
   * `sort(objects, comparator)`: copies the collection and sorts the copy by
   * insertion, one element at a time. The result is the stable sorted order of
   * the input, ascending by key and a permutation of the input.
   */
  method SortWith<T>(items: seq<T>, key: T -> string) returns (r: seq<T>)
    ensures r == SortSpec(items, key)
    ensures SortedBy(r, key) && multiset(r) == multiset(items)
  {
    r := [];
    var i := 0;
    while i < |items|
      invariant 0 <= i <= |items|
      invariant r == SortSpec(items[..i], key)
    {
      var x := items[i];
      var j := 0;
      while j < |r| && !LexLess(key(x), key(r[j]))
        invariant 0 <= j <= |r|
        invariant forall k :: 0 <= k < j ==> !LexLess(key(x), key(r[k]))
      {
        j := j + 1;
      }
      InsertAt(x, r, key, j);
      assert items[..i + 1][..i] == items[..i];
      r := r[..j] + [x] + r[j..];
      i := i + 1;
    }
    assert items[..|items|] == items;
    SortSpecCorrect(items, key);
  }

  // ---------------------------------------------------------------------------
  // Uniqueness of the sorted order when keys are distinct

  lemma {:induction false} DistinctCountAtMostOne<T>(s: seq<T>, key: T -> string, x: T)
    requires KeysDistinct(s, key)
    ensures multiset(s)[x] <= 1
  {
    if s != [] {
      var init := s[..|s| - 1];
      assert KeysDistinct(init, key);
      DistinctCountAtMostOne(init, key, x);
      assert s == init + [s[|s| - 1]];
      if x == s[|s| - 1] {
        forall k | 0 <= k < |init| ensures init[k] != x {
          assert init[k] == s[k];
          assert key(s[k]) != key(s[|s| - 1]);
        }
        assert x !in multiset(init);
      }
    }
  }

  lemma TwoPositionsCount<T>(s: seq<T>, i: nat, j: nat)
    requires i < j < |s| && s[i] == s[j]
    ensures multiset(s)[s[i]] >= 2
  {
    assert s == s[..j] + [s[j]] + s[j + 1..];
    assert s[..j][i] == s[i];
    assert s[i] in multiset(s[..j]);
  }

  /** An element whose key no element of `s` has keeps the keys distinct. */
  lemma KeysDistinctAppend<T>(s: seq<T>, x: T, key: T -> string)
    requires KeysDistinct(s, key)
    requires forall k :: 0 <= k < |s| ==> key(s[k]) != key(x)
    ensures KeysDistinct(s + [x], key)
  {
    var r := s + [x];
    forall i, j | 0 <= i < j < |r| ensures key(r[i]) != key(r[j]) {
      assert r[i] == s[i];
    }
  }

  /** Reordering a list keeps its keys distinct. */
  lemma KeysDistinctPermutation<T>(a: seq<T>, b: seq<T>, key: T -> string)
    requires multiset(a) == multiset(b) && KeysDistinct(a, key)
    ensures KeysDistinct(b, key)
  {
    forall i, j | 0 <= i < j < |b| ensures key(b[i]) != key(b[j]) {
      assert b[i] in multiset(a) && b[j] in multiset(a);
      var p :| 0 <= p < |a| && a[p] == b[i];
      var q :| 0 <= q < |a| && a[q] == b[j];
      if p == q {
        TwoPositionsCount(b, i, j);
        DistinctCountAtMostOne(a, key, b[i]);
        assert false;
      }
      assert key(a[p]) != key(a[q]);
    }
  }

  lemma SortedDistinctIsStrict<T>(s: seq<T>, key: T -> string)
    requires SortedBy(s, key) && KeysDistinct(s, key)
    ensures StrictlySortedBy(s, key)
  {
    forall i, j | 0 <= i < j < |s| ensures LexLess(key(s[i]), key(s[j])) {
      LexLessTotal(key(s[i]), key(s[j]));
    }
  }

  lemma StrictSortedHeads<T>(a: seq<T>, b: seq<T>, key: T -> string)
    requires StrictlySortedBy(a, key) && StrictlySortedBy(b, key)
    requires multiset(a) == multiset(b) && a != []
    ensures b != [] && a[0] == b[0]
  {
    assert a[0] in multiset(b);
    var j :| 0 <= j < |b| && b[j] == a[0];
    assert b[0] in multiset(a);
    var i :| 0 <= i < |a| && a[i] == b[0];
    if j > 0 {
      LexLessTotal(key(a[0]), key(a[i]));
      assert false;
    }
  }

  /** Two strictly sorted lists with the same elements are the same list. */
  lemma {:induction false} StrictSortedUnique<T>(a: seq<T>, b: seq<T>, key: T -> string)
    requires StrictlySortedBy(a, key) && StrictlySortedBy(b, key)
    requires multiset(a) == multiset(b)
    ensures a == b
  {
    if a == [] {
      assert |multiset(b)| == 0;
    } else {
      StrictSortedHeads(a, b, key);
      assert a == [a[0]] + a[1..] && b == [b[0]] + b[1..];
      assert multiset(a[1..]) == multiset(a) - multiset{a[0]};
      assert multiset(b[1..]) == multiset(b) - multiset{b[0]};
      StrictlySortedTail(a, key);
      StrictlySortedTail(b, key);
      StrictSortedUnique(a[1..], b[1..], key);
    }
  }

  lemma StrictlySortedTail<T>(s: seq<T>, key: T -> string)
    requires StrictlySortedBy(s, key) && s != []
    ensures StrictlySortedBy(s[1..], key)
  {
    forall i, j | 0 <= i < j < |s[1..]| ensures LexLess(key(s[1..][i]), key(s[1..][j])) {
      assert s[1..][i] == s[i + 1] && s[1..][j] == s[j + 1];
    }
  }

  /**
   * When the comparator tells all elements apart, the sorted copy does not
   * depend on the order in which the collection handed out its elements.
   */
  lemma SortIndependentOfOrder<T>(a: seq<T>, b: seq<T>, key: T -> string)
    requires multiset(a) == multiset(b) && KeysDistinct(a, key)
    ensures SortSpec(a, key) == SortSpec(b, key)
  {
    SortSpecCorrect(a, key);
    SortSpecCorrect(b, key);
    KeysDistinctPermutation(a, SortSpec(a, key), key);
    KeysDistinctPermutation(a, SortSpec(b, key), key);
    SortedDistinctIsStrict(SortSpec(a, key), key);
    SortedDistinctIsStrict(SortSpec(b, key), key);
    StrictSortedUnique(SortSpec(a, key), SortSpec(b, key), key);
  }

  // ---------------------------------------------------------------------------
  // The natural comparator of `sort(Collection)`

  /** How the natural comparator sees an element. */
  datatype Sortable =
    | Comparable(key: string)       // a `Comparable`, compared by `compareTo`
    | ClassValue(name: string)      // a `Class`, compared by its name
    | Uncomparable(typeName: string)  // anything else

  datatype SortError = ClassCast

  /**
   * The comparator lambda of `sort(Collection)`: `None` stands for the
   * `ClassCastException` it throws, when the first operand is neither
   * comparable nor a class, or when the operands are of different kinds and
   * the cast of the second one fails.
   */
  function NaturalCompare(a: Sortable, b: Sortable): (r: Option<int>)
    ensures r.Some? <==> (a.Comparable? && b.Comparable?) || (a.ClassValue? && b.ClassValue?)
    ensures r.Some? ==> (r.value < 0 <==> LexLess(NaturalKey(a), NaturalKey(b)))
  {
    match a
    case Comparable(k) => if b.Comparable? then Some(LexCompare(k, b.key)) else None
    case ClassValue(n) => if b.ClassValue? then Some(LexCompare(n, b.name)) else None
    case Uncomparable(_) => None
  }

  /** The string an orderable element is compared by. */
  function NaturalKey(v: Sortable): (r: string)
  {
    match v
    case Comparable(k) => k
    case ClassValue(n) => n
    case Uncomparable(t) => t
  }

  /** The key the natural comparator orders elements by, seen through `view`. */
  function ByView<T>(view: T -> Sortable): (r: T -> string)
  {
    x => NaturalKey(view(x))
  }

  ghost predicate SomePairIncomparable<T>(items: seq<T>, view: T -> Sortable)
  {
    exists i, j :: 0 <= i < |items| && 0 <= j < |items| && i != j && NaturalCompare(view(items[i]), view(items[j])).None?
  }

  /**
   * `sort(Collection)`: the copy sorted by the natural comparator. Sorting
   * compares every element with another one as soon as there are two, so it
   * fails exactly when two of the elements cannot be compared; a lone element
   * is never compared.
   */
  method SortNatural<T>(items: seq<T>, view: T -> Sortable) returns (r: Result<seq<T>, SortError>)
    ensures r.Failure? <==> |items| >= 2 && SomePairIncomparable(items, view)
    ensures r.Success? ==> r.value == SortSpec(items, ByView(view))
  {
    if |items| >= 2 {
      var k := 1;
      while k < |items|
        invariant 1 <= k <= |items|
        invariant forall m :: 1 <= m < k ==> NaturalCompare(view(items[0]), view(items[m])).Some?
      {
        if NaturalCompare(view(items[0]), view(items[k])).None? {
          return Failure(ClassCast);
        }
        k := k + 1;
      }
      forall i, j | 0 <= i < |items| && 0 <= j < |items| && i != j
        ensures NaturalCompare(view(items[i]), view(items[j])).Some?
      {
        assert i != 0 ==> NaturalCompare(view(items[0]), view(items[i])).Some?;
        assert j != 0 ==> NaturalCompare(view(items[0]), view(items[j])).Some?;
      }
    }
    var sorted := SortWith(items, ByView(view));
    r := Success(sorted);
  }

  // ---------------------------------------------------------------------------
  // TreeSet

  /** The keys of the elements of `s`. */
  function KeysOf<T>(s: seq<T>, key: T -> string): (r: set<string>)
  {
    set i | 0 <= i < |s| :: key(s[i])
  }

  /**
   * What `new TreeSet<>(collection)` keeps: adding the elements in iteration
   * order, an element whose key is already present is not added, so the first
   * element of each key stays.
   */
  function KeepFirst<T>(s: seq<T>, key: T -> string): (r: seq<T>)
  {
    if s == [] then []
    else
      var kept := KeepFirst(s[..|s| - 1], key);
      if key(s[|s| - 1]) in KeysOf(kept, key) then kept else kept + [s[|s| - 1]]
  }

  /** The iteration order of `new TreeSet<>(collection)`: the kept elements, ascending. */
  function TreeSetOf<T>(s: seq<T>, key: T -> string): (r: seq<T>)
  {
    SortSpec(KeepFirst(s, key), key)
  }

  lemma KeysOfAppend<T>(s: seq<T>, x: T, key: T -> string)
    ensures KeysOf(s + [x], key) == KeysOf(s, key) + {key(x)}
  {
    var r := s + [x];
    forall k | k in KeysOf(r, key) ensures k in KeysOf(s, key) + {key(x)} {
      var i :| 0 <= i < |r| && key(r[i]) == k;
      if i < |s| { assert s[i] == r[i]; }
    }
    forall k | k in KeysOf(s, key) ensures k in KeysOf(r, key) {
      var i :| 0 <= i < |s| && key(s[i]) == k;
      assert r[i] == s[i];
    }
    assert r[|s|] == x;
    assert key(x) in KeysOf(r, key);
  }

  /** `s[i]` is the first element of `s` with its key. */
  ghost predicate FirstOfItsKey<T>(s: seq<T>, i: int, key: T -> string)
    requires 0 <= i < |s|
  {
    forall j :: 0 <= j < i ==> key(s[j]) != key(s[i])
  }

  /** Every element `KeepFirst` keeps is the first element of the input with its key. */
  lemma {:induction false} KeepFirstKeepsFirst<T>(s: seq<T>, key: T -> string)
    ensures var kept := KeepFirst(s, key);
      forall k :: 0 <= k < |kept| ==> exists i :: 0 <= i < |s| && s[i] == kept[k] && FirstOfItsKey(s, i, key)
  {
    if s != [] {
      var init := s[..|s| - 1];
      var x := s[|s| - 1];
      KeepFirstKeepsFirst(init, key);
      KeepFirstCorrect(init, key);
      var kept := KeepFirst(init, key);
      var r := KeepFirst(s, key);
      forall k | 0 <= k < |r|
        ensures exists i :: 0 <= i < |s| && s[i] == r[k] && FirstOfItsKey(s, i, key)
      {
        if k < |kept| {
          assert r[k] == kept[k];
          var i :| 0 <= i < |init| && init[i] == kept[k] && FirstOfItsKey(init, i, key);
          assert s[i] == init[i];
          forall j | 0 <= j < i ensures key(s[j]) != key(s[i]) {
            assert s[j] == init[j];
          }
          assert FirstOfItsKey(s, i, key);
        } else {
          assert r == kept + [x] && r[k] == x;
          forall j | 0 <= j < |s| - 1 ensures key(s[j]) != key(x) {
            assert s[j] == init[j];
            assert key(init[j]) in KeysOf(init, key);
          }
          assert FirstOfItsKey(s, |s| - 1, key);
        }
      }
      assert forall k :: 0 <= k < |r| ==> exists i :: 0 <= i < |s| && s[i] == r[k] && FirstOfItsKey(s, i, key);
    }
  }

  lemma {:induction false} KeepFirstCorrect<T>(s: seq<T>, key: T -> string)
    ensures var kept := KeepFirst(s, key);
      && KeysDistinct(kept, key)
      && KeysOf(kept, key) == KeysOf(s, key)
      && forall k :: 0 <= k < |kept| ==> kept[k] in s
  {
    if s != [] {
      var init := s[..|s| - 1];
      var x := s[|s| - 1];
      KeepFirstCorrect(init, key);
      var kept := KeepFirst(init, key);
      assert s == init + [x];
      KeysOfAppend(init, x, key);
      if key(x) !in KeysOf(kept, key) {
        var r := kept + [x];
        KeysOfAppend(kept, x, key);
        forall i, j | 0 <= i < j < |r| ensures key(r[i]) != key(r[j]) {
          if j == |kept| {
            assert key(r[i]) in KeysOf(kept, key);
          }
        }
        forall k | 0 <= k < |r| ensures r[k] in s {
          if k < |kept| { assert r[k] == kept[k]; }
        }
      } else {
        forall k | 0 <= k < |kept| ensures kept[k] in s {
          assert kept[k] in init;
        }
      }
    }
  }

  /**
   * A collection attribute of objects goes through a `TreeSet`: the result is
   * strictly ascending by key (so without two elements the comparator calls
   * equal), every element comes from the collection, and every key of the
   * collection is represented.
   */
  lemma TreeSetCorrect<T>(s: seq<T>, key: T -> string)
    ensures var t := TreeSetOf(s, key);
      && StrictlySortedBy(t, key)
      && KeysOf(t, key) == KeysOf(s, key)
      && (forall k :: 0 <= k < |t| ==> t[k] in s)
      && forall k :: 0 <= k < |t| ==> exists i :: 0 <= i < |s| && s[i] == t[k] && FirstOfItsKey(s, i, key)
  {
    var kept := KeepFirst(s, key);
    var t := TreeSetOf(s, key);
    KeepFirstCorrect(s, key);
    KeepFirstKeepsFirst(s, key);
    SortSpecCorrect(kept, key);
    KeysDistinctPermutation(kept, t, key);
    SortedDistinctIsStrict(t, key);
    forall k | 0 <= k < |t|
      ensures t[k] in s
      ensures exists i :: 0 <= i < |s| && s[i] == t[k] && FirstOfItsKey(s, i, key)
    {
      assert t[k] in multiset(kept);
      var m :| 0 <= m < |kept| && kept[m] == t[k];
    }
    KeysOfPermutation(kept, t, key);
  }

  /** Reordering a sequence does not change its keys. */
  lemma KeysOfPermutation<T>(a: seq<T>, b: seq<T>, key: T -> string)
    requires multiset(a) == multiset(b)
    ensures KeysOf(a, key) == KeysOf(b, key)
  {
    forall k | k in KeysOf(a, key) ensures k in KeysOf(b, key) {
      var i :| 0 <= i < |a| && key(a[i]) == k;
      assert a[i] in multiset(b);
      var j :| 0 <= j < |b| && b[j] == a[i];
    }
    forall k | k in KeysOf(b, key) ensures k in KeysOf(a, key) {
      var i :| 0 <= i < |b| && key(b[i]) == k;
      assert b[i] in multiset(a);
      var j :| 0 <= j < |a| && a[j] == b[i];
    }
  }

  // ---------------------------------------------------------------------------
  // Copying a set into a list

  /** Some listing of the elements of `s`, each once. */
  ghost function Enumerate<T>(s: set<T>): (r: seq<T>)
    ensures multiset(r) == multiset(s)
  {
    if s == {} then []
    else
      var x :| x in s;
      assert multiset(s) == multiset(s - {x}) + multiset{x};
      [x] + Enumerate(s - {x})
  }

  /** `new ArrayList<>(set)`: the elements in the set's own iteration order, which is not specified. */
  method ListOfSet<T>(s: set<T>) returns (r: seq<T>)
    ensures multiset(r) == multiset(s)
  {
    r := [];
    var remaining := s;
    while remaining != {}
      invariant remaining <= s
      invariant multiset(r) + multiset(remaining) == multiset(s)
      decreases remaining
    {
      var x :| x in remaining;
      assert multiset(remaining) == multiset(remaining - {x}) + multiset{x};
      r := r + [x];
      remaining := remaining - {x};
    }
  }

  /** A list holding each element of a set once tells its elements apart under any injective key. */
  lemma ListOfSetDistinct<T>(r: seq<T>, s: set<T>, key: T -> string)
    requires multiset(r) == multiset(s)
    requires forall x, y :: x in s && y in s && key(x) == key(y) ==> x == y
    ensures KeysDistinct(r, key)
  {
    forall i, j | 0 <= i < j < |r| ensures key(r[i]) != key(r[j]) {
      assert r[i] in multiset(s) && r[j] in multiset(s);
      if r[i] == r[j] {
        TwoPositionsCount(r, i, j);
      }
    }
  }
}

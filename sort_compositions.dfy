/** lib/sort-compositions.js: ordering the children of compositions that declare `orderBy`. */
module SortCompositions {
  import opened Wrappers
  import opened Js
  import opened Compositions
  import opened Strings

  /** The comparator handed to `Array.prototype.sort`: by `l[prop]` against `r[prop]`, reversed when `desc`. */
  function Compare(o: OrderBy, l: Value, r: Value): (c: int)
    ensures -1 <= c <= 1
  {
    var a, b := Member(l, o.property), Member(r, o.property);
    if Lt(a, b) then (if o.desc then 1 else -1)
    else if Gt(a, b) then (if o.desc then -1 else 1)
    else 0
  }

  /** Inserts `x` after every element of `s` that does not compare above it (a stable insertion). */
  function Insert(o: OrderBy, s: seq<Value>, x: Value): (r: seq<Value>)
    ensures multiset(r) == multiset(s) + multiset{x}
  {
    if s == [] || Compare(o, s[|s| - 1], x) <= 0 then s + [x]
    else
      var init := s[..|s| - 1];
      assert s == init + [s[|s| - 1]];
      Insert(o, init, x) + [s[|s| - 1]]
  }

  /** Stable insertion sort by the comparator. */
  function SortBy(o: OrderBy, items: seq<Value>): (r: seq<Value>)
    ensures multiset(r) == multiset(items)
  {
    if items == [] then []
    else
      var init := items[..|items| - 1];
      assert items == init + [items[|items| - 1]];
      Insert(o, SortBy(o, init), items[|items| - 1])
  }

  /** The elements that are not undefined, in order. */
  function Defined(items: seq<Value>): (r: seq<Value>)
    ensures Undefined !in r
  {
    if items == [] then []
    else Defined(items[..|items| - 1]) + (if items[|items| - 1] == Undefined then [] else [items[|items| - 1]])
  }

  /** The undefined elements. */
  function Undefineds(items: seq<Value>): (r: seq<Value>)
    ensures forall i | 0 <= i < |r| :: r[i] == Undefined
  {
    if items == [] then []
    else Undefineds(items[..|items| - 1]) + (if items[|items| - 1] == Undefined then [Undefined] else [])
  }

  lemma {:induction false} NoUndefined(items: seq<Value>)
    requires Undefined !in items
    ensures Defined(items) == items && Undefineds(items) == []
  {
    if items != [] {
      var init := items[..|items| - 1];
      assert items == init + [items[|items| - 1]];
      NoUndefined(init);
    }
  }

  lemma {:induction false} DefinedUndefinedsSplit(items: seq<Value>)
    ensures multiset(Defined(items)) + multiset(Undefineds(items)) == multiset(items)
  {
    if items != [] {
      var init := items[..|items| - 1];
      assert items == init + [items[|items| - 1]];
      DefinedUndefinedsSplit(init);
    }
  }

  /**
   * `array.sort(compare)`: undefined elements go last without being compared,
   * the others are sorted by the comparator. The order the engine produces is
   * modelled by a stable sort.
   */
  function SortArray(o: OrderBy, items: seq<Value>): (r: seq<Value>)
    ensures multiset(r) == multiset(items)
  {
    DefinedUndefinedsSplit(items);
    assert multiset(SortBy(o, Defined(items)) + Undefineds(items)) == multiset(items);
    SortBy(o, Defined(items)) + Undefineds(items)
  }

  /** The numeric sort key of an element, when its ordering property is a number. */
  function Key(o: OrderBy, v: Value): int
  {
    var k := Member(v, o.property);
    if k.Num? then k.n else 0
  }

  predicate HasNumericKey(o: OrderBy, v: Value)
  {
    Member(v, o.property).Num?
  }

  /** Ascending keys, or descending ones when `desc`. */
  predicate InOrder(o: OrderBy, a: int, b: int)
  {
    if o.desc then a >= b else a <= b
  }

  predicate SortedByKey(o: OrderBy, s: seq<Value>)
  {
    forall i, j | 0 <= i < j < |s| :: InOrder(o, Key(o, s[i]), Key(o, s[j]))
  }

  /** On numeric keys the comparator is the integer order, reversed when `desc`. */
  lemma CompareNumeric(o: OrderBy, l: Value, r: Value)
    requires HasNumericKey(o, l) && HasNumericKey(o, r)
    ensures Compare(o, l, r) <= 0 <==> InOrder(o, Key(o, l), Key(o, r))
    ensures Compare(o, l, r) > 0 ==> InOrder(o, Key(o, r), Key(o, l))
  {
  }

  predicate HasStringKey(o: OrderBy, v: Value)
  {
    Member(v, o.property).Str?
  }

  /** The string sort key of an element, when its ordering property is a string. */
  function StrKey(o: OrderBy, v: Value): string
  {
    var k := Member(v, o.property);
    if k.Str? then k.s else ""
  }

  /** Ascending in the order `<` gives strings, or descending when `desc`. */
  predicate StrInOrder(o: OrderBy, a: string, b: string)
  {
    if o.desc then !LexLess(a, b) else !LexLess(b, a)
  }

  predicate SortedByString(o: OrderBy, s: seq<Value>)
  {
    forall i, j | 0 <= i < j < |s| :: StrInOrder(o, StrKey(o, s[i]), StrKey(o, s[j]))
  }

  /** On string keys the comparator is the lexicographic order, reversed when `desc`. */
  lemma CompareString(o: OrderBy, l: Value, r: Value)
    requires HasStringKey(o, l) && HasStringKey(o, r)
    ensures Compare(o, l, r) <= 0 <==> StrInOrder(o, StrKey(o, l), StrKey(o, r))
    ensures Compare(o, l, r) > 0 ==> StrInOrder(o, StrKey(o, r), StrKey(o, l))
  {
    var a, b := StrKey(o, l), StrKey(o, r);
    if LexLess(a, b) {
      LexAsymmetric(a, b);
    }
    if LexLess(b, a) {
      LexAsymmetric(b, a);
    }
  }

  /** Elements whose ordering properties are equal compare as 0, whatever the values are. */
  lemma CompareEqualIsZero(o: OrderBy, l: Value, r: Value)
    requires Member(l, o.property) == Member(r, o.property)
    ensures Compare(o, l, r) == 0
  {
    var p := ToPrimitive(Member(l, o.property));
    if p.Str? {
      LexIrreflexive(p.s);
    }
  }

  /** Swapping the two elements negates the answer, for any values. */
  lemma CompareAntisymmetric(o: OrderBy, l: Value, r: Value)
    ensures Compare(o, r, l) == -Compare(o, l, r)
  {
    var pa, pb := ToPrimitive(Member(l, o.property)), ToPrimitive(Member(r, o.property));
    if pa.Str? && pb.Str? && LexLess(pa.s, pb.s) {
      LexAsymmetric(pa.s, pb.s);
    }
  }

  /** Every ordering property holds a number (`numeric`) or every one holds a string. */
  predicate Keyed(o: OrderBy, numeric: bool, v: Value)
  {
    if numeric then HasNumericKey(o, v) else HasStringKey(o, v)
  }

  /** On keys of one kind, "does not compare above" is transitive. */
  lemma CompareTransitive(o: OrderBy, numeric: bool, a: Value, b: Value, c: Value)
    requires Keyed(o, numeric, a) && Keyed(o, numeric, b) && Keyed(o, numeric, c)
    requires Compare(o, a, b) <= 0 && Compare(o, b, c) <= 0
    ensures Compare(o, a, c) <= 0
  {
    if numeric {
      CompareNumeric(o, a, b);
      CompareNumeric(o, b, c);
      CompareNumeric(o, a, c);
    } else {
      CompareString(o, a, b);
      CompareString(o, b, c);
      CompareString(o, a, c);
      var ka, kb, kc := StrKey(o, a), StrKey(o, b), StrKey(o, c);
      if o.desc {
        LexNotLessTransitive(kc, kb, ka);
      } else {
        LexNotLessTransitive(ka, kb, kc);
      }
    }
  }

  /** No element compares above a later one. */
  predicate SortedByCompare(o: OrderBy, s: seq<Value>)
  {
    forall i, j | 0 <= i < j < |s| :: Compare(o, s[i], s[j]) <= 0
  }

  /** Appending an element that no earlier element compares above keeps the order. */
  lemma SortedSnoc(o: OrderBy, s: seq<Value>, y: Value)
    requires SortedByCompare(o, s)
    requires forall i | 0 <= i < |s| :: Compare(o, s[i], y) <= 0
    ensures SortedByCompare(o, s + [y])
  {
    forall i, j | 0 <= i < j < |s| + 1 ensures Compare(o, (s + [y])[i], (s + [y])[j]) <= 0 {
      assert (s + [y])[i] == s[i];
    }
  }

  lemma {:induction false} InsertSorted(o: OrderBy, numeric: bool, s: seq<Value>, x: Value)
    requires forall v | v in s :: Keyed(o, numeric, v)
    requires Keyed(o, numeric, x)
    requires SortedByCompare(o, s)
    ensures SortedByCompare(o, Insert(o, s, x))
  {
    if s == [] {
    } else if Compare(o, s[|s| - 1], x) <= 0 {
      assert Insert(o, s, x) == s + [x];
      AppendSorted(o, numeric, s, x);
    } else {
      var init := s[..|s| - 1];
      var last := s[|s| - 1];
      assert s == init + [last];
      assert Insert(o, s, x) == Insert(o, init, x) + [last];
      InsertSorted(o, numeric, init, x);
      InsertBelowLast(o, init, last, x);
    }
  }

  /** `x` goes last when the last element does not compare above it. */
  lemma AppendSorted(o: OrderBy, numeric: bool, s: seq<Value>, x: Value)
    requires forall v | v in s :: Keyed(o, numeric, v)
    requires Keyed(o, numeric, x)
    requires SortedByCompare(o, s) && s != [] && Compare(o, s[|s| - 1], x) <= 0
    ensures SortedByCompare(o, s + [x])
  {
    var last := s[|s| - 1];
    forall i | 0 <= i < |s| - 1 ensures Compare(o, s[i], x) <= 0 {
      assert s[i] in s && last in s;
      CompareTransitive(o, numeric, s[i], last, x);
    }
    SortedSnoc(o, s, x);
  }

  /** When `last` compares above `x`, it still follows everything `x` was inserted among. */
  lemma InsertBelowLast(o: OrderBy, init: seq<Value>, last: Value, x: Value)
    requires SortedByCompare(o, init + [last]) && Compare(o, last, x) > 0
    requires SortedByCompare(o, Insert(o, init, x))
    ensures SortedByCompare(o, Insert(o, init, x) + [last])
  {
    CompareAntisymmetric(o, last, x);
    var t := Insert(o, init, x);
    forall i | 0 <= i < |t| ensures Compare(o, t[i], last) <= 0 {
      var v := t[i];
      assert v in multiset(t);
      if v != x {
        assert v in multiset(init);
        var i :| 0 <= i < |init| && init[i] == v;
        var u := init + [last];
        assert u[i] == v && u[|init|] == last;
        assert Compare(o, u[i], u[|init|]) <= 0;
      }
    }
    SortedSnoc(o, t, last);
  }

  lemma {:induction false} SortBySorted(o: OrderBy, numeric: bool, items: seq<Value>)
    requires forall v | v in items :: Keyed(o, numeric, v)
    ensures SortedByCompare(o, SortBy(o, items))
  {
    if items != [] {
      var init := items[..|items| - 1];
      SortBySorted(o, numeric, init);
      forall v | v in SortBy(o, init) ensures Keyed(o, numeric, v) {
        assert v in multiset(SortBy(o, init));
      }
      InsertSorted(o, numeric, SortBy(o, init), items[|items| - 1]);
    }
  }

  /**
   * When every child carries a key of one kind (all numbers or all strings)
   * under the ordering property, the sort leaves no child comparing above a
   * later one, and the result is a permutation.
   */
  lemma SortArraySortedByComparator(o: OrderBy, numeric: bool, items: seq<Value>)
    requires forall v | v in items :: Keyed(o, numeric, v)
    ensures multiset(SortArray(o, items)) == multiset(items)
    ensures SortedByCompare(o, SortArray(o, items))
    ensures forall v | v in SortArray(o, items) :: Keyed(o, numeric, v)
  {
    assert !Keyed(o, numeric, Undefined);
    NoUndefined(items);
    SortBySorted(o, numeric, items);
    assert SortArray(o, items) == SortBy(o, items);
    forall v | v in SortArray(o, items) ensures Keyed(o, numeric, v) {
      assert v in multiset(SortArray(o, items));
    }
  }

  lemma ComparatorOrderIsNumeric(o: OrderBy, s: seq<Value>)
    requires forall v | v in s :: Keyed(o, true, v)
    requires SortedByCompare(o, s)
    ensures SortedByKey(o, s)
  {
    forall i, j | 0 <= i < j < |s| ensures InOrder(o, Key(o, s[i]), Key(o, s[j])) {
      assert Keyed(o, true, s[i]) && Keyed(o, true, s[j]);
      CompareNumeric(o, s[i], s[j]);
    }
  }

  lemma ComparatorOrderIsLexicographic(o: OrderBy, s: seq<Value>)
    requires forall v | v in s :: Keyed(o, false, v)
    requires SortedByCompare(o, s)
    ensures SortedByString(o, s)
  {
    forall i, j | 0 <= i < j < |s| ensures StrInOrder(o, StrKey(o, s[i]), StrKey(o, s[j])) {
      assert Keyed(o, false, s[i]) && Keyed(o, false, s[j]);
      CompareString(o, s[i], s[j]);
    }
  }

  /**
   * When every child carries a number under the ordering property, sorting
   * yields the same children ordered by that number: ascending, or descending
   * when `desc`.
   */
  lemma SortArrayOrdersNumbers(o: OrderBy, items: seq<Value>)
    requires forall v | v in items :: HasNumericKey(o, v)
    ensures multiset(SortArray(o, items)) == multiset(items)
    ensures SortedByKey(o, SortArray(o, items))
  {
    SortArraySortedByComparator(o, true, items);
    ComparatorOrderIsNumeric(o, SortArray(o, items));
  }

  /**
   * When every child carries a string under the ordering property (a name,
   * an ISO date), sorting yields the same children in the order `<` gives
   * strings: ascending, or descending when `desc`.
   */
  lemma SortArrayOrdersStrings(o: OrderBy, items: seq<Value>)
    requires forall v | v in items :: HasStringKey(o, v)
    ensures multiset(SortArray(o, items)) == multiset(items)
    ensures SortedByString(o, SortArray(o, items))
  {
    SortArraySortedByComparator(o, false, items);
    ComparatorOrderIsLexicographic(o, SortArray(o, items));
  }

  /** One composition's share of `sortComps`: sort `node[comp.name]` when ordered and an array. */
  function SortOne(comp: Composition, p: Props): (r: Props)
    ensures r.keys == p.keys && r.vals.Keys == p.vals.Keys
  {
    var v := Get(p, comp.name);
    if comp.orderBy.Some? && v.Arr? then p.Put(comp.name, Arr(SortArray(comp.orderBy.value, v.items))) else p
  }

  /** The node after the listed compositions have been sorted, in order. */
  function SortAll(comps: CompositionMap, ks: seq<string>, p: Props): (r: Props)
    requires forall k | k in ks :: k in comps.vals
    ensures r.keys == p.keys && r.vals.Keys == p.vals.Keys
  {
    if ks == [] then p
    else SortOne(comps.vals[ks[|ks| - 1]], SortAll(comps, ks[..|ks| - 1], p))
  }

  /** `sortComps(node)`: sorts, in place, the child arrays of every composition that has an `orderBy`. */
  method SortComps(comps: CompositionMap, node: JsObject)
    requires comps.Valid()
    modifies node
    ensures node.props == SortAll(comps, comps.keys, old(node.props))
  {
    var ks := comps.keys;
    var i := 0;
    while i < |ks|
      invariant 0 <= i <= |ks|
      invariant node.props == SortAll(comps, ks[..i], old(node.props))
    {
      var comp := comps.vals[ks[i]];
      assert ks[..i + 1][..i] == ks[..i];
      if comp.orderBy.Some? && Get(node.props, comp.name).Arr? {
        var items := Get(node.props, comp.name).items;
        node.props := node.props.Put(comp.name, Arr(SortArray(comp.orderBy.value, items)));
      }
      i := i + 1;
    }
    assert ks[..i] == ks;
  }

  /**
   * Sorting only reorders: every property keeps its value, except arrays
   * that become a permutation of themselves; the key order is unchanged.
   */
  lemma {:induction false} SortAllOnlyReorders(comps: CompositionMap, ks: seq<string>, p: Props)
    requires forall k | k in ks :: k in comps.vals
    ensures var r := SortAll(comps, ks, p);
      forall k | k in p.vals ::
        r.vals[k] == p.vals[k] || (p.vals[k].Arr? && r.vals[k].Arr? && multiset(r.vals[k].items) == multiset(p.vals[k].items))
  {
    if ks != [] {
      SortAllOnlyReorders(comps, ks[..|ks| - 1], p);
    }
  }

  /**
   * A composition stored under its own name, with an `orderBy`, leaves its
   * array in `SortArray` order (no other composition touches that name).
   */
  lemma {:induction false} SortAllAt(comps: CompositionMap, ks: seq<string>, p: Props, k: string)
    requires forall j | j in ks :: j in comps.vals && comps.vals[j].name == j
    requires Distinct(ks) && k in ks && comps.vals[k].orderBy.Some? && Get(p, k).Arr?
    ensures Get(SortAll(comps, ks, p), k) == Arr(SortArray(comps.vals[k].orderBy.value, Get(p, k).items))
  {
    var init, last := ks[..|ks| - 1], ks[|ks| - 1];
    var q := SortAll(comps, init, p);
    assert SortAll(comps, ks, p) == SortOne(comps.vals[last], q);
    if last == k {
      assert k !in init;
      assert forall j | j in init :: comps.vals[j].name != k;
      SortAllLeavesOthers(comps, init, p, k);
      assert Get(q, k) == Get(p, k);
    } else {
      assert k in init;
      SortAllAt(comps, init, p, k);
      assert comps.vals[last].name != k;
    }
  }

  /** A property that no ordered composition names is left as it was. */
  lemma {:induction false} SortAllLeavesOthers(comps: CompositionMap, ks: seq<string>, p: Props, k: string)
    requires forall j | j in ks :: j in comps.vals
    requires forall j | j in ks :: comps.vals[j].orderBy.None? || comps.vals[j].name != k
    requires k in p.vals
    ensures SortAll(comps, ks, p).vals[k] == p.vals[k]
  {
    if ks != [] {
      SortAllLeavesOthers(comps, ks[..|ks| - 1], p, k);
    }
  }
}

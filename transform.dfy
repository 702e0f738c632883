/**
 * lib/transform-composed-nodes.js: run an iterator over every composed child
 * of a node and store what it produces on a target object.
 */
module TransformComposedNodes {
  import opened Wrappers
  import opened Js
  import opened Compositions

  /** What is run on each child: the composition, the child and its index; it yields the child's replacement. */
  type Iterator = (Composition, Value, int) -> JsResult<Value>

  /** `objects.indexOf(x)`: the first position holding `x`, or -1. */
  function FirstIndex(objs: seq<Value>, x: Value): (i: int)
    ensures -1 <= i < |objs|
    ensures i == -1 <==> x !in objs
    ensures i >= 0 ==> objs[i] == x && x !in objs[..i]
  {
    if objs == [] then -1
    else if objs[0] == x then 0
    else
      var j := FirstIndex(objs[1..], x);
      if j == -1 then -1
      else
        assert objs[..j + 1] == [objs[0]] + objs[1..][..j];
        j + 1
  }

  /**
   * The index `objects.indexOf(object)` hands the iterator for child `j`:
   * an object child is found at its own position, a primitive one at the
   * first position holding an equal primitive.
   */
  function ChildIndex(objs: seq<Value>, j: nat): (i: int)
    requires j < |objs|
    ensures 0 <= i <= j && objs[i] == objs[j]
    ensures IsReference(objs[j]) ==> i == j
  {
    if IsReference(objs[j]) then j
    else
      var i := FirstIndex(objs, objs[j]);
      assert objs[j] in objs;
      if i > j then assert false; 0 else i
  }

  /** The children under a composition key: an array as it is, anything else as a one-element array. */
  function Wrap(v: Value): (objs: seq<Value>)
    ensures v.Arr? ==> objs == v.items
    ensures !v.Arr? ==> objs == [v]
  {
    if v.Arr? then v.items else [v]
  }

  /** The transformed children stored back: a lone result is unwrapped unless the composition is `many`. */
  function Collapse(comp: Composition, rs: seq<Value>): (r: Value)
    ensures comp.many ==> r == Arr(rs)
    ensures r.Arr? || (|rs| == 1 && r == rs[0])
  {
    if |rs| == 1 && !comp.many then rs[0] else Arr(rs)
  }

  /** The iterator's results for the first `n` children, in order; the first failure wins. */
  function MapChildren(comp: Composition, objs: seq<Value>, n: nat, iter: Iterator): (r: JsResult<seq<Value>>)
    requires n <= |objs|
    ensures r.Ok? ==> |r.value| == n
  {
    if n == 0 then Ok([])
    else
      var rs :- MapChildren(comp, objs, n - 1, iter);
      var t :- iter(comp, objs[n - 1], ChildIndex(objs, n - 1));
      Ok(rs + [t])
  }

  /** The value one composition key produces; undefined when the source holds nothing truthy there. */
  function KeyResult(comp: Composition, source: Props, key: string, iter: Iterator): JsResult<Value>
  {
    var objects := Get(source, key);
    if !Truthy(objects) then Ok(Undefined)
    else
      var objs := Wrap(objects);
      var rs :- MapChildren(comp, objs, |objs|, iter);
      Ok(Collapse(comp, rs))
  }

  /** The results for the listed composition keys, in order; the first failure wins. */
  function KeyResults(comps: CompositionMap, ks: seq<string>, source: Props, iter: Iterator): (r: JsResult<seq<Value>>)
    requires forall k | k in ks :: k in comps.vals
    ensures r.Ok? ==> |r.value| == |ks|
  {
    if ks == [] then Ok([])
    else
      var k := ks[|ks| - 1];
      var rs :- KeyResults(comps, ks[..|ks| - 1], source, iter);
      var v :- KeyResult(comps.vals[k], source, k, iter);
      Ok(rs + [v])
  }

  /** Stores each truthy result under its key; falsy results leave the target alone. */
  function Assign(target: Props, ks: seq<string>, rs: seq<Value>): Props
    requires |ks| == |rs|
  {
    if ks == [] then target
    else
      var t := Assign(target, ks[..|ks| - 1], rs[..|rs| - 1]);
      if Truthy(rs[|rs| - 1]) then t.Put(ks[|ks| - 1], rs[|rs| - 1]) else t
  }

  /** The target after `transformComposedNodes(source, target, iterator)`, or the error the callback receives. */
  function TransformComps(comps: CompositionMap, source: Props, target: Props, iter: Iterator): JsResult<Props>
    requires comps.Valid()
  {
    var rs :- KeyResults(comps, comps.keys, source, iter);
    Ok(Assign(target, comps.keys, rs))
  }

  lemma {:induction false} MapChildrenErrorStays(comp: Composition, objs: seq<Value>, n: nat, m: nat, iter: Iterator)
    requires n <= m <= |objs|
    requires MapChildren(comp, objs, n, iter).Err?
    ensures MapChildren(comp, objs, m, iter) == MapChildren(comp, objs, n, iter)
  {
    if n < m {
      MapChildrenErrorStays(comp, objs, n, m - 1, iter);
    }
  }

  lemma {:induction false} KeyResultsErrorStays(comps: CompositionMap, ks: seq<string>, n: nat, source: Props, iter: Iterator)
    requires forall k | k in ks :: k in comps.vals
    requires n <= |ks|
    requires KeyResults(comps, ks[..n], source, iter).Err?
    ensures KeyResults(comps, ks, source, iter) == KeyResults(comps, ks[..n], source, iter)
  {
    if n < |ks| {
      assert ks[..|ks| - 1][..n] == ks[..n];
      KeyResultsErrorStays(comps, ks[..|ks| - 1], n, source, iter);
    }
    else {
      assert ks[..n] == ks;
    }
  }

  /**
   * `transformComposedNodes.call(model, source, target, iterator, callback)`:
   * on success the target holds every truthy result under its composition key;
   * on failure the target is left untouched and the error is returned.
   */
  method TransformComposedNodes(comps: CompositionMap, source: Props, target: JsObject, iter: Iterator)
    returns (err: Option<Error>)
    requires comps.Valid()
    modifies target
    ensures var r := TransformComps(comps, source, old(target.props), iter);
      && (r.Ok? ==> err.None? && target.props == r.value)
      && (r.Err? ==> err == Some(r.error) && target.props == old(target.props))
  {
    var ks := comps.keys;
    var results: seq<Value> := [];
    var i := 0;
    while i < |ks|
      invariant 0 <= i <= |ks|
      invariant KeyResults(comps, ks[..i], source, iter) == Ok(results)
      invariant target.props == old(target.props)
    {
      var key := ks[i];
      var comp := comps.vals[key];
      var objects := Get(source, key);
      if !Truthy(objects) {
        KeyResultsStep(comps, ks, i, source, iter, Undefined);
        results := results + [Undefined];
      } else {
        var r := TransformChildren(comp, Wrap(objects), iter);
        if r.Err? {
          KeyResultsFailAt(comps, ks, i, source, iter);
          KeyResultsErrorStays(comps, ks, i + 1, source, iter);
          return Some(r.error);
        }
        KeyResultsStep(comps, ks, i, source, iter, r.value);
        results := results + [r.value];
      }
      i := i + 1;
    }
    assert ks[..i] == ks;
    target.props := Assign(target.props, ks, results);
    err := None;
  }

  /**
   * The inner `async.map` over one key's children (the value wrapped in an
   * array if need be) and its callback: the first failing child's error, or
   * the results in order, unwrapped when there is one and the composition is
   * not `many`.
   */
  method TransformChildren(comp: Composition, objs: seq<Value>, iter: Iterator) returns (r: JsResult<Value>)
    ensures MapChildren(comp, objs, |objs|, iter).Err? ==> r == Err(MapChildren(comp, objs, |objs|, iter).error)
    ensures MapChildren(comp, objs, |objs|, iter).Ok? ==> r == Ok(Collapse(comp, MapChildren(comp, objs, |objs|, iter).value))
  {
    var transformed: seq<Value> := [];
    var j := 0;
    while j < |objs|
      invariant 0 <= j <= |objs|
      invariant MapChildren(comp, objs, j, iter) == Ok(transformed)
    {
      var t := iter(comp, objs[j], ChildIndex(objs, j));
      if t.Err? {
        MapChildrenErrorStays(comp, objs, j + 1, |objs|, iter);
        return Err(t.error);
      }
      transformed := transformed + [t.value];
      j := j + 1;
    }
    r := Ok(Collapse(comp, transformed));
  }

  /** One more key whose result is `v` extends the results of the keys before it. */
  lemma KeyResultsStep(comps: CompositionMap, ks: seq<string>, i: nat, source: Props, iter: Iterator, v: Value)
    requires forall k | k in ks :: k in comps.vals
    requires i < |ks| && KeyResults(comps, ks[..i], source, iter).Ok?
    requires KeyResult(comps.vals[ks[i]], source, ks[i], iter) == Ok(v)
    ensures KeyResults(comps, ks[..i + 1], source, iter) == Ok(KeyResults(comps, ks[..i], source, iter).value + [v])
  {
    assert ks[..i + 1][..i] == ks[..i];
  }

  /** A key whose result fails makes the results up to that key fail. */
  lemma KeyResultsFailAt(comps: CompositionMap, ks: seq<string>, i: nat, source: Props, iter: Iterator)
    requires forall k | k in ks :: k in comps.vals
    requires i < |ks| && KeyResult(comps.vals[ks[i]], source, ks[i], iter).Err?
    ensures KeyResults(comps, ks[..i + 1], source, iter).Err?
    ensures KeyResults(comps, ks[..i], source, iter).Ok? ==>
      KeyResults(comps, ks[..i + 1], source, iter) == Err(KeyResult(comps.vals[ks[i]], source, ks[i], iter).error)
  {
    assert ks[..i + 1][..i] == ks[..i];
  }

  /** A child whose iterator call fails makes its key's result fail. */
  lemma KeyResultFailsAt(comp: Composition, source: Props, k: string, iter: Iterator, j: nat)
    requires Truthy(Get(source, k)) && j < |Wrap(Get(source, k))|
    requires var objs := Wrap(Get(source, k));
      iter(comp, objs[j], ChildIndex(objs, j)).Err?
    ensures KeyResult(comp, source, k, iter).Err?
  {
    var objs := Wrap(Get(source, k));
    assert MapChildren(comp, objs, j + 1, iter).Err?;
    MapChildrenErrorStays(comp, objs, j + 1, |objs|, iter);
  }

  // ---- what the transformation promises ----

  lemma {:induction false} AssignOther(target: Props, ks: seq<string>, rs: seq<Value>, k: string)
    requires |ks| == |rs| && k !in ks
    ensures Get(Assign(target, ks, rs), k) == Get(target, k)
  {
    if ks != [] {
      AssignOther(target, ks[..|ks| - 1], rs[..|rs| - 1], k);
    }
  }

  lemma {:induction false} AssignAt(target: Props, ks: seq<string>, rs: seq<Value>, i: nat)
    requires |ks| == |rs| && Distinct(ks) && i < |ks|
    ensures Get(Assign(target, ks, rs), ks[i]) == if Truthy(rs[i]) then rs[i] else Get(target, ks[i])
  {
    var n := |ks| - 1;
    if i == n {
      AssignOther(target, ks[..n], rs[..n], ks[n]);
    } else {
      assert Distinct(ks[..n]) && ks[..n][i] == ks[i] && rs[..n][i] == rs[i];
      AssignAt(target, ks[..n], rs[..n], i);
    }
  }

  lemma {:induction false} KeyResultsAt(comps: CompositionMap, ks: seq<string>, source: Props, iter: Iterator, i: nat)
    requires forall k | k in ks :: k in comps.vals
    requires KeyResults(comps, ks, source, iter).Ok? && i < |ks|
    ensures KeyResult(comps.vals[ks[i]], source, ks[i], iter).Ok?
    ensures KeyResults(comps, ks, source, iter).value[i] == KeyResult(comps.vals[ks[i]], source, ks[i], iter).value
  {
    var n := |ks| - 1;
    if i < n {
      assert ks[..n][i] == ks[i];
      KeyResultsAt(comps, ks[..n], source, iter, i);
    }
  }

  /** A key that is not a composition key keeps the target's value. */
  lemma OtherKeysUntouched(comps: CompositionMap, source: Props, target: Props, iter: Iterator, k: string)
    requires comps.Valid() && k !in comps.vals
    requires TransformComps(comps, source, target, iter).Ok?
    ensures Get(TransformComps(comps, source, target, iter).value, k) == Get(target, k)
  {
    var rs := KeyResults(comps, comps.keys, source, iter).value;
    AssignOther(target, comps.keys, rs, k);
  }

  /**
   * Each composition key of the target ends up holding the key's result when
   * that is truthy, and keeps its old value otherwise (in particular when the
   * source held nothing truthy under the key).
   */
  lemma CompositionKeyResult(comps: CompositionMap, source: Props, target: Props, iter: Iterator, k: string)
    requires comps.Valid() && k in comps.vals
    requires TransformComps(comps, source, target, iter).Ok?
    ensures KeyResult(comps.vals[k], source, k, iter).Ok?
    ensures var v := KeyResult(comps.vals[k], source, k, iter).value;
      Get(TransformComps(comps, source, target, iter).value, k) == if Truthy(v) then v else Get(target, k)
  {
    var rs := KeyResults(comps, comps.keys, source, iter).value;
    var i :| 0 <= i < |comps.keys| && comps.keys[i] == k;
    KeyResultsAt(comps, comps.keys, source, iter, i);
    AssignAt(target, comps.keys, rs, i);
  }

  /** A `many` composition always yields an array with one result per child. */
  lemma ManyYieldsArray(comp: Composition, source: Props, key: string, iter: Iterator)
    requires comp.many && Truthy(Get(source, key))
    requires KeyResult(comp, source, key, iter).Ok?
    ensures var r := KeyResult(comp, source, key, iter).value;
      r.Arr? && |r.items| == |Wrap(Get(source, key))|
  {
  }

  /** The iterator that hands every child back unchanged. */
  function Identity(): Iterator
  {
    (c: Composition, v: Value, i: int) => Ok(v)
  }

  lemma {:induction false} MapChildrenIdentity(comp: Composition, objs: seq<Value>, n: nat)
    requires n <= |objs|
    ensures MapChildren(comp, objs, n, Identity()) == Ok(objs[..n])
  {
    if n > 0 {
      MapChildrenIdentity(comp, objs, n - 1);
      assert objs[..n] == objs[..n - 1] + [objs[n - 1]];
    }
  }

  /**
   * Wrapping and unwrapping undo each other: with an iterator that changes
   * nothing, a single child of a composition that is not `many`, and an array
   * of a `many` composition (or of any length other than one), come back as they were.
   */
  lemma IdentityRoundTrip(comp: Composition, source: Props, key: string)
    requires Truthy(Get(source, key))
    requires var v := Get(source, key);
      (!v.Arr? && !comp.many) || (v.Arr? && (comp.many || |v.items| != 1))
    ensures KeyResult(comp, source, key, Identity()) == Ok(Get(source, key))
  {
    var objs := Wrap(Get(source, key));
    MapChildrenIdentity(comp, objs, |objs|);
    assert objs[..|objs|] == objs;
  }

  /** A primitive child is passed the first position holding an equal primitive. */
  lemma ChildIndexFirst(objs: seq<Value>, j: nat)
    requires j < |objs| && !IsReference(objs[j])
    ensures objs[j] !in objs[..ChildIndex(objs, j)]
  {
    assert ChildIndex(objs, j) == FirstIndex(objs, objs[j]);
  }

  /** A child is passed its own position exactly when it is an object or no equal primitive comes before it. */
  lemma IndexOfDistinctChild(objs: seq<Value>, j: nat)
    requires j < |objs|
    ensures ChildIndex(objs, j) == j <==> IsReference(objs[j]) || objs[j] !in objs[..j]
  {
    if !IsReference(objs[j]) && objs[j] in objs[..j] {
      ChildIndexFirst(objs, j);
      var i :| 0 <= i < j && objs[..j][i] == objs[j];
      assert objs[..ChildIndex(objs, j)] <= objs[..j];
    }
  }

  /** A child whose iterator call fails makes the whole transformation fail. */
  lemma FailingChildFailsTransform(comps: CompositionMap, source: Props, target: Props, iter: Iterator, k: string, j: nat)
    requires comps.Valid() && k in comps.vals
    requires Truthy(Get(source, k)) && j < |Wrap(Get(source, k))|
    requires var objs := Wrap(Get(source, k));
      iter(comps.vals[k], objs[j], ChildIndex(objs, j)).Err?
    ensures TransformComps(comps, source, target, iter).Err?
  {
    KeyResultFailsAt(comps.vals[k], source, k, iter, j);
    var i :| 0 <= i < |comps.keys| && comps.keys[i] == k;
    KeyResultsFailAt(comps, comps.keys, i, source, iter);
    KeyResultsErrorStays(comps, comps.keys, i + 1, source, iter);
  }

  /** Assigning keeps a target well formed and adds no key other than the listed ones. */
  lemma {:induction false} AssignShape(target: Props, ks: seq<string>, rs: seq<Value>)
    requires |ks| == |rs|
    ensures target.Valid() ==> Assign(target, ks, rs).Valid()
    ensures forall k | k in Assign(target, ks, rs).vals :: k in target.vals || k in ks
  {
    if ks != [] {
      AssignShape(target, ks[..|ks| - 1], rs[..|rs| - 1]);
    }
  }
}

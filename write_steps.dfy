/**
 * The decisions lib/write.js takes when it stores an object: which stale
 * composition edges to delete, how to relate a child, how the root is
 * stripped of its compositions, whether a save goes through the unique
 * index, which objects are indexed, and the guards of `pushComposition`.
 * The database is the log of requests the write path makes.
 */
module WriteSteps {
  import opened Wrappers
  import opened Js
  import opened Compositions
  import opened GetId
  import opened SeraphModel
  import CompositionRelationCypherList

  /** A request to the database, as the write path issues it. */
  datatype Op =
    | Save(node: Props)
    | SaveUnique(node: Props, index: string, key: Value, value: Value, returnOldOnConflict: bool)
    | Query(cypher: string, params: Props)
    | Relate(root: Value, rel: string, child: Value)
    | IndexEntry(index: string, indexed: Value, key: Value, value: Value)

  /** The database as the write path sees it: the requests so far, and the id the next new node receives. */
  datatype Store = Store(nextId: int, ops: seq<Op>)

  /** The application functions the write path calls: an index's conditional, key and value (by index id), and `compute`. */
  datatype Callbacks = Callbacks(
    conditional: (nat, Value) -> JsResult<bool>,
    indexKey: (nat, Value) -> JsResult<Value>,
    indexValue: (nat, Value) -> JsResult<Value>,
    compute: (string, Props) -> JsResult<Props>)

  /** `db._getId(v)` as a query parameter: the id, or null. */
  function IdParam(idKey: string, v: Value): (r: Value)
    ensures r.Num? || r == Null
    ensures r.Num? <==> GetId.GetId(idKey, v).Ok? && GetId.GetId(idKey, v).value.Some?
  {
    match GetId.GetId(idKey, v)
    case Ok(Some(n)) => Num(n)
    case _ => Null
  }

  // ---- deleteOldCompositionRels ----

  /** The values found under a composition key: none when falsy, else the value or the array's elements. */
  function Children(obj: Props, k: string): (cs: seq<Value>)
    ensures !Truthy(Get(obj, k)) ==> cs == []
    ensures Truthy(Get(obj, k)) && Get(obj, k).Arr? ==> cs == Get(obj, k).items
    ensures Truthy(Get(obj, k)) && !Get(obj, k).Arr? ==> cs == [Get(obj, k)]
  {
    var v := Get(obj, k);
    if !Truthy(v) then [] else if v.Arr? then v.items else [v]
  }

  /** `_getId` of each value in order; a null value throws. */
  function IdsOf(idKey: string, vs: seq<Value>): (r: JsResult<seq<Option<int>>>)
    ensures r.Err? <==> Null in vs
    ensures r.Ok? ==> |r.value| == |vs| && forall i | 0 <= i < |vs| :: GetId.GetId(idKey, vs[i]) == Ok(r.value[i])
  {
    if vs == [] then Ok([])
    else
      var init, last := vs[..|vs| - 1], vs[|vs| - 1];
      assert vs == init + [last];
      assert Null in vs <==> Null in init || last == Null;
      var prev :- IdsOf(idKey, init);
      var id :- GetId.GetId(idKey, last);
      IdsSnoc(idKey, init, last, prev, id);
      Ok(prev + [id])
  }

  /** One more value whose id was read extends the ids read so far, index by index. */
  lemma IdsSnoc(idKey: string, init: seq<Value>, last: Value, prev: seq<Option<int>>, id: Option<int>)
    requires |prev| == |init| && forall i | 0 <= i < |init| :: GetId.GetId(idKey, init[i]) == Ok(prev[i])
    requires GetId.GetId(idKey, last) == Ok(id)
    ensures forall i | 0 <= i < |init| + 1 :: GetId.GetId(idKey, (init + [last])[i]) == Ok((prev + [id])[i])
  {
    forall i | 0 <= i < |init| + 1
      ensures GetId.GetId(idKey, (init + [last])[i]) == Ok((prev + [id])[i])
    {
      if i < |init| {
        assert (init + [last])[i] == init[i] && (prev + [id])[i] == prev[i];
      }
    }
  }

  /** The ids of every child under the listed composition keys, in key order, before filtering. */
  function CompositionIds(idKey: string, ks: seq<string>, obj: Props): JsResult<seq<Option<int>>>
  {
    if ks == [] then Ok([])
    else
      var prev :- CompositionIds(idKey, ks[..|ks| - 1], obj);
      var ids :- IdsOf(idKey, Children(obj, ks[|ks| - 1]));
      Ok(prev + ids)
  }

  /** `.reject(id == null || id == '')`: drops the missing ids, and 0, which `==` equates with ''. */
  function Kept(ids: seq<Option<int>>): (r: seq<int>)
    ensures forall x | x in r :: x != 0 && Some(x) in ids
    ensures forall i | 0 <= i < |ids| && ids[i].Some? && ids[i].value != 0 :: ids[i].value in r
  {
    if ids == [] then []
    else
      var prev := Kept(ids[..|ids| - 1]);
      var last := ids[|ids| - 1];
      assert ids == ids[..|ids| - 1] + [last];
      if last.Some? && last.value != 0 then prev + [last.value] else prev
  }

  /** The ids of the children the object still holds, whose edges must stay. */
  function ExcludeList(idKey: string, ks: seq<string>, obj: Props): JsResult<seq<int>>
  {
    var ids :- CompositionIds(idKey, ks, obj);
    Ok(Kept(ids))
  }

  function Nums(ns: seq<int>): (r: seq<Value>)
    ensures |r| == |ns| && forall i | 0 <= i < |ns| :: r[i] == Num(ns[i])
  {
    if ns == [] then [] else [Num(ns[0])] + Nums(ns[1..])
  }

  const StartRoot := "START root=node({rootId})"

  function DeleteAllCypher(rels: string): string
  {
    StartRoot + " MATCH root-[rel:" + rels + "]->() DELETE rel"
  }

  function DeleteStaleCypher(rels: string): string
  {
    StartRoot + ", excluded=node({excludeIds})" + " WITH root, collect(excluded) as excluded"
      + " MATCH root-[rel:" + rels + "]->comp WHERE NOT comp IN excluded DELETE rel"
  }

  /**
   * `deleteOldCompositionRels(db, object)`: no request when the model has no
   * compositions; a delete of every composition edge when the object holds
   * no saved child; otherwise a delete of the edges to every other node.
   */
  function DeleteOldCompositionRels(spec: ModelSpec, obj: Props): JsResult<Option<Op>>
    requires spec.compositions.Valid()
  {
    var rels := CompositionRelationCypherList.CypherComposedRelationList(spec.compositions);
    if rels == "" then Ok(None)
    else
      var exclude :- ExcludeList(spec.idKey, spec.compositions.keys, obj);
      var rootId := IdParam(spec.idKey, Obj(obj));
      if exclude == [] then Ok(Some(Query(DeleteAllCypher(rels), Empty<Value>().Put("rootId", rootId))))
      else Ok(Some(Query(DeleteStaleCypher(rels),
        Empty<Value>().Put("rootId", rootId).Put("excludeIds", Arr(Nums(exclude))))))
  }

  /** Without compositions nothing is deleted, whatever the object holds. */
  lemma NoCompositionsNoDelete(spec: ModelSpec, obj: Props)
    requires spec.compositions.Valid() && spec.compositions.keys == []
    ensures DeleteOldCompositionRels(spec, obj) == Ok(None)
  {
    CompositionRelationCypherList.EmptyIffNoCompositions(spec.compositions);
  }

  /**
   * With compositions, the delete of every edge is chosen exactly when no
   * child with an id is left to exclude; otherwise the excluded ids are
   * passed along.
   */
  lemma DeleteQueryChoice(spec: ModelSpec, obj: Props)
    requires spec.compositions.Valid() && spec.compositions.keys != []
    requires ExcludeList(spec.idKey, spec.compositions.keys, obj).Ok?
    ensures var r := DeleteOldCompositionRels(spec, obj);
      var exclude := ExcludeList(spec.idKey, spec.compositions.keys, obj).value;
      var rels := CompositionRelationCypherList.CypherComposedRelationList(spec.compositions);
      && r.Ok? && r.value.Some? && r.value.value.Query?
      && (r.value.value.cypher == DeleteAllCypher(rels) <==> exclude == [])
      && Get(r.value.value.params, "rootId") == IdParam(spec.idKey, Obj(obj))
      && (exclude != [] ==> Get(r.value.value.params, "excludeIds") == Arr(Nums(exclude)))
  {
    var rels := CompositionRelationCypherList.CypherComposedRelationList(spec.compositions);
    CompositionRelationCypherList.EmptyIffNoCompositions(spec.compositions);
    DeleteCyphersDiffer(rels);
  }

  lemma DeleteCyphersDiffer(rels: string)
    ensures DeleteAllCypher(rels) != DeleteStaleCypher(rels)
  {
    assert |StartRoot| == 25;
    assert DeleteAllCypher(rels)[25] == ' ';
    assert DeleteStaleCypher(rels)[25] == ',';
  }

  /** The child ids under one key, split from the ones before it: the list follows key order. */
  lemma {:induction false} KeptAppend(a: seq<Option<int>>, b: seq<Option<int>>)
    ensures Kept(a + b) == Kept(a) + Kept(b)
  {
    if b != [] {
      var init := b[..|b| - 1];
      assert (a + b)[..|a + b| - 1] == a + init;
      KeptAppend(a, init);
    } else {
      assert a + b == a;
    }
  }

  /** Each composition key contributes its children's ids, after those of the keys before it. */
  lemma ExcludeListInKeyOrder(idKey: string, ks: seq<string>, k: string, obj: Props)
    requires ExcludeList(idKey, ks + [k], obj).Ok?
    ensures ExcludeList(idKey, ks, obj).Ok?
    ensures IdsOf(idKey, Children(obj, k)).Ok?
    ensures ExcludeList(idKey, ks + [k], obj).value
         == ExcludeList(idKey, ks, obj).value + Kept(IdsOf(idKey, Children(obj, k)).value)
  {
    assert (ks + [k])[..|ks|] == ks;
    var prev := CompositionIds(idKey, ks, obj).value;
    KeptAppend(prev, IdsOf(idKey, Children(obj, k)).value);
  }

  /** Some child under key `k` has the id `id`. */
  predicate ChildWithId(idKey: string, obj: Props, k: string, id: Option<int>)
  {
    exists c | c in Children(obj, k) :: GetId.GetId(idKey, c) == Ok(id)
  }

  /** Some child under one of the keys `ks` has the id `id`. */
  predicate SomeChildWithId(idKey: string, obj: Props, ks: seq<string>, id: Option<int>)
  {
    ks != [] && (SomeChildWithId(idKey, obj, ks[..|ks| - 1], id) || ChildWithId(idKey, obj, ks[|ks| - 1], id))
  }

  lemma IdsOfMembers(idKey: string, cs: seq<Value>, id: Option<int>)
    requires IdsOf(idKey, cs).Ok?
    ensures id in IdsOf(idKey, cs).value <==> exists c | c in cs :: GetId.GetId(idKey, c) == Ok(id)
  {
    var ids := IdsOf(idKey, cs).value;
    if id in ids {
      var j :| 0 <= j < |ids| && ids[j] == id;
      assert GetId.GetId(idKey, cs[j]) == Ok(id);
    }
    if exists c | c in cs :: GetId.GetId(idKey, c) == Ok(id) {
      var c :| c in cs && GetId.GetId(idKey, c) == Ok(id);
      var j :| 0 <= j < |cs| && cs[j] == c;
      assert ids[j] == id;
    }
  }

  /** The ids gathered before filtering are exactly those of the children under the listed keys. */
  lemma {:induction false} CompositionIdsMembers(idKey: string, ks: seq<string>, obj: Props, id: Option<int>)
    requires CompositionIds(idKey, ks, obj).Ok?
    ensures id in CompositionIds(idKey, ks, obj).value <==> SomeChildWithId(idKey, obj, ks, id)
  {
    if ks != [] {
      var init := ks[..|ks| - 1];
      var k := ks[|ks| - 1];
      var prev := CompositionIds(idKey, init, obj);
      var here := IdsOf(idKey, Children(obj, k));
      assert prev.Ok? && here.Ok?;
      assert CompositionIds(idKey, ks, obj).value == prev.value + here.value;
      CompositionIdsMembers(idKey, init, obj, id);
      IdsOfMembers(idKey, Children(obj, k), id);
      assert id in here.value <==> ChildWithId(idKey, obj, k, id);
    }
  }

  /**
   * An id is excluded exactly when it is the non-zero id of a child under
   * some composition key.
   */
  lemma ExcludeListMembers(idKey: string, ks: seq<string>, obj: Props, x: int)
    requires ExcludeList(idKey, ks, obj).Ok?
    ensures x in ExcludeList(idKey, ks, obj).value <==> x != 0 && SomeChildWithId(idKey, obj, ks, Some(x))
  {
    CompositionIdsMembers(idKey, ks, obj, Some(x));
    var ids := CompositionIds(idKey, ks, obj).value;
    if x != 0 && Some(x) in ids {
      var i :| 0 <= i < |ids| && ids[i] == Some(x);
    }
  }

  /** A null child makes the id lookup throw, so the delete is never issued. */
  lemma NullChildThrows(idKey: string, ks: seq<string>, obj: Props, i: nat)
    requires i < |ks| && Null in Children(obj, ks[i])
    ensures ExcludeList(idKey, ks, obj).Err?
  {
    ExcludeListThrows(idKey, ks, obj, i);
  }

  lemma {:induction false} ExcludeListThrows(idKey: string, ks: seq<string>, obj: Props, i: nat)
    requires i < |ks| && Null in Children(obj, ks[i])
    ensures CompositionIds(idKey, ks, obj).Err?
  {
    if i < |ks| - 1 {
      assert ks[..|ks| - 1][i] == ks[i];
      ExcludeListThrows(idKey, ks[..|ks| - 1], obj, i);
    }
  }

  // ---- relating a child ----

  /** Whether the root counts as new in `commit`: its id is null or undefined. */
  predicate IsNewRoot(idKey: string, obj: Props)
  {
    Nullish(Get(obj, idKey))
  }

  /** Whether a child counts as new when it is related: its id is falsy. */
  predicate IsNewChild(idKey: string, obj: Props)
  {
    !Truthy(Get(obj, idKey))
  }

  function RelateIfNotRelatedCypher(rel: string): string
  {
    "START root=node({root}), target=node({target}) WHERE NOT (root-[:`" + rel + "`]->target) CREATE root-[:`" + rel + "`]->target"
  }

  /** `_relateIfNotRelated(db, root, rel, target)`: the guarded create, as a query. */
  function RelateIfNotRelated(root: Value, rel: string, target: Value): Op
  {
    Query(RelateIfNotRelatedCypher(rel), Empty<Value>().Put("root", root).Put("target", target))
  }

  /**
   * The edge from root to child: a plain relate when either end is new (no
   * edge can exist yet), otherwise a create guarded by the absence of an edge.
   */
  function RelateOp(childIsNew: bool, rootIsNew: bool, root: Value, rel: string, child: Value): (op: Op)
    ensures op.Relate? <==> childIsNew || rootIsNew
    ensures op.Relate? ==> op == Relate(root, rel, child)
    ensures !op.Relate? ==> op == RelateIfNotRelated(root, rel, child)
  {
    if childIsNew || rootIsNew then Relate(root, rel, child) else RelateIfNotRelated(root, rel, child)
  }

  /**
   * The two tests differ: a root counts as new only with a null or undefined
   * id, a child with any falsy one. Every new root is new as a child, and an
   * id of 0 makes a child new but not a root.
   */
  lemma NewnessTests(idKey: string, obj: Props)
    ensures IsNewRoot(idKey, obj) ==> IsNewChild(idKey, obj)
    ensures Get(obj, idKey) == Num(0) ==> IsNewChild(idKey, obj) && !IsNewRoot(idKey, obj)
  {
  }

  // ---- commit: the stripped root ----

  /** The root's own properties: the object without any composition key. */
  function Stripped(obj: Props, ks: seq<string>): (r: Props)
  {
    if ks == [] then obj else Stripped(obj, ks[..|ks| - 1]).Remove(ks[|ks| - 1])
  }

  /** Stripping keeps exactly the other properties, with their values and in their order. */
  lemma {:induction false} StrippedContents(obj: Props, ks: seq<string>)
    requires obj.Valid()
    ensures var r := Stripped(obj, ks);
      && r.Valid()
      && (forall k :: k in r.vals <==> k in obj.vals && k !in ks)
      && (forall k | k in r.vals :: r.vals[k] == obj.vals[k])
  {
    if ks != [] {
      StrippedContents(obj, ks[..|ks| - 1]);
    }
  }

  /**
   * `commit`'s clone-and-delete: a fresh object holding the root's own
   * properties; the caller's object is left as it is.
   */
  method StripCompositions(obj: Props, comps: CompositionMap) returns (stripped: JsObject)
    ensures fresh(stripped)
    ensures stripped.props == Stripped(obj, comps.keys)
  {
    stripped := new JsObject(obj);
    var ks := comps.keys;
    var i := 0;
    while i < |ks|
      invariant 0 <= i <= |ks|
      invariant stripped.props == Stripped(obj, ks[..i])
    {
      assert ks[..i + 1][..i] == ks[..i];
      stripped.props := stripped.props.Remove(ks[i]);
      i := i + 1;
    }
    assert ks[..i] == ks;
  }

  // ---- executeSave ----

  /** `db.save(node)`: a node without an id receives the next id; one with an id keeps it. */
  function PlainSave(idKey: string, store: Store, node: Props): (r: (Store, Props))
    ensures r.0.ops == store.ops + [Save(node)]
    ensures Nullish(Get(node, idKey)) ==> r.1 == node.Put(idKey, Num(store.nextId)) && r.0.nextId == store.nextId + 1
    ensures !Nullish(Get(node, idKey)) ==> r.1 == node && r.0.nextId == store.nextId
  {
    if Nullish(Get(node, idKey))
    then (Store(store.nextId + 1, store.ops + [Save(node)]), node.Put(idKey, Num(store.nextId)))
    else (Store(store.nextId, store.ops + [Save(node)]), node)
  }

  /** What a step of the write path leaves behind: the database, and its value or error. */
  datatype Written<T> = Written(store: Store, result: JsResult<T>)

  /**
   * `executeSave(db, object)`: a plain save unless the object is new and the
   * model has a unique index whose conditional accepts it; then the unique
   * save, with the index's key and value. An error of the conditional, key or
   * value reaches the callback and nothing is saved.
   */
  function ExecuteSave(spec: ModelSpec, cb: Callbacks, store: Store, obj: Props): (w: Written<Props>)
    ensures w.result.Err? ==> w.store == store
    ensures store.ops <= w.store.ops
    ensures w.result.Ok? ==> w.result.value == obj || w.result.value == obj.Put(spec.idKey, Num(store.nextId))
  {
    var isNew := Nullish(Get(obj, spec.idKey));
    if spec.uniqueIndex.None? || !isNew then
      var (s, saved) := PlainSave(spec.idKey, store, obj);
      Written(s, Ok(saved))
    else
      var index := spec.uniqueIndex.value;
      match cb.conditional(index.id, Obj(obj))
      case Err(e) => Written(store, Err(e))
      case Ok(goAhead) =>
        if !goAhead then
          var (s, saved) := PlainSave(spec.idKey, store, obj);
          Written(s, Ok(saved))
        else
          match cb.indexKey(index.id, Obj(obj))
          case Err(e) => Written(store, Err(e))
          case Ok(key) =>
            match cb.indexValue(index.id, Obj(obj))
            case Err(e) => Written(store, Err(e))
            case Ok(val) =>
              Written(Store(store.nextId + 1,
                            store.ops + [SaveUnique(obj, index.index, key, val, index.returnOldOnConflict)]),
                      Ok(obj.Put(spec.idKey, Num(store.nextId))))
  }

  /**
   * The unique save is used exactly for a new object of a model with a
   * unique index whose conditional, key and value all succeed and accept it;
   * every other successful save is a plain one.
   */
  lemma UniqueSaveOnlyWhenNew(spec: ModelSpec, cb: Callbacks, store: Store, obj: Props)
    requires ExecuteSave(spec, cb, store, obj).result.Ok?
    ensures var w := ExecuteSave(spec, cb, store, obj);
      && |w.store.ops| == |store.ops| + 1
      && w.store.ops[..|store.ops|] == store.ops
      && (w.store.ops[|store.ops|].SaveUnique? <==>
           && spec.uniqueIndex.Some?
           && Nullish(Get(obj, spec.idKey))
           && cb.conditional(spec.uniqueIndex.value.id, Obj(obj)) == Ok(true))
      && (!w.store.ops[|store.ops|].SaveUnique? ==> w.store.ops[|store.ops|] == Save(obj))
  {
  }

  /** An object that has an id is always saved plainly, whatever the unique index says. */
  lemma ExistingObjectSavedPlainly(spec: ModelSpec, cb: Callbacks, store: Store, obj: Props)
    requires !Nullish(Get(obj, spec.idKey))
    ensures ExecuteSave(spec, cb, store, obj) == Written(Store(store.nextId, store.ops + [Save(obj)]), Ok(obj))
  {
  }

  // ---- indexObject ----

  /**
   * `indexObject(db, indexes, object)`: for each index whose conditional
   * accepts the object, an index entry with the index's key and value. The
   * first error ends it.
   */
  function IndexObject(cb: Callbacks, indexes: seq<IndexSpec>, store: Store, obj: Value): (w: Written<Value>)
    ensures w.result.Ok? ==> w.result.value == obj
    ensures |w.store.ops| >= |store.ops| && w.store.ops[..|store.ops|] == store.ops
    ensures w.store.nextId == store.nextId
  {
    if indexes == [] then Written(store, Ok(obj))
    else
      var prev := IndexObject(cb, indexes[..|indexes| - 1], store, obj);
      if prev.result.Err? then prev
      else
        var index := indexes[|indexes| - 1];
        match cb.conditional(index.id, obj)
        case Err(e) => Written(prev.store, Err(e))
        case Ok(proceed) =>
          if !proceed then prev
          else
            match cb.indexKey(index.id, obj)
            case Err(e) => Written(prev.store, Err(e))
            case Ok(key) =>
              match cb.indexValue(index.id, obj)
              case Err(e) => Written(prev.store, Err(e))
              case Ok(val) =>
                Written(Store(prev.store.nextId, prev.store.ops + [IndexEntry(index.index, obj, key, val)]), Ok(obj))
  }

  /** Only index entries are requested, one per accepting index at most, each for the object given. */
  lemma {:induction false} IndexObjectRequestsEntries(cb: Callbacks, indexes: seq<IndexSpec>, store: Store, obj: Value)
    ensures var w := IndexObject(cb, indexes, store, obj);
      && |w.store.ops| <= |store.ops| + |indexes|
      && forall i | |store.ops| <= i < |w.store.ops| :: w.store.ops[i].IndexEntry? && w.store.ops[i].indexed == obj
  {
    if indexes != [] {
      IndexObjectRequestsEntries(cb, indexes[..|indexes| - 1], store, obj);
    }
  }

  /** Whether indexing succeeds, and with what, does not depend on the requests made before. */
  lemma {:induction false} IndexObjectResultStoreFree(cb: Callbacks, indexes: seq<IndexSpec>, s1: Store, s2: Store, obj: Value)
    ensures IndexObject(cb, indexes, s1, obj).result == IndexObject(cb, indexes, s2, obj).result
  {
    if indexes != [] {
      IndexObjectResultStoreFree(cb, indexes[..|indexes| - 1], s1, s2, obj);
    }
  }

  // ---- pushComposition ----

  /** What `pushComposition` does with a single object, once its guards passed. */
  datatype PushPlan =
    | RelateExisting(root: int, rel: string, child: int)
    | SaveThenRelate(model: string, root: int, rel: string)

  /** The plan for one pushed object, or one result per element of a pushed array, in order. */
  datatype Pushed = One(plan: PushPlan) | Each(results: seq<Pushed>)

  /**
   * `pushComposition(root, compName, object)`: an unknown composition name,
   * then a root without an id, are errors; past these guards the object is
   * pushed to the root's id.
   */
  function PushComposition(spec: ModelSpec, root: Value, compName: string, obj: Value): (r: JsResult<Pushed>)
    ensures compName !in spec.compositions.vals ==> r == Err(Plain("Invalid composition name - " + compName))
    ensures r.Ok? ==> compName in spec.compositions.vals && (r.value.Each? <==> obj.Arr?)
    ensures r.Ok? && obj.Arr? ==> |r.value.results| == |obj.items|
    ensures r.Ok? && r.value.One? ==> r.value.plan.rel == spec.compositions.vals[compName].rel
  {
    if compName !in spec.compositions.vals then Err(Plain("Invalid composition name - " + compName))
    else
      var rid :- GetId.GetId(spec.idKey, root);
      if rid.None? || rid.value == 0 then Err(Plain("You cannot push to an unsaved model"))
      else PushTo(spec, compName, rid.value, obj)
  }

  /**
   * The object pushed to a saved root's id: an array element by element, in
   * series (each element goes back through `pushComposition` with the root's
   * id, see PushReentry); a child with an id is related (if it is not
   * already), one without is saved first.
   */
  function PushTo(spec: ModelSpec, compName: string, rootId: int, obj: Value): (r: JsResult<Pushed>)
    requires compName in spec.compositions.vals
    ensures r.Ok? ==> (r.value.Each? <==> obj.Arr?)
    ensures r.Ok? && obj.Arr? ==> |r.value.results| == |obj.items|
    ensures r.Ok? && r.value.One? ==> r.value.plan.rel == spec.compositions.vals[compName].rel
    decreases obj, 1, 0
  {
    if obj.Arr? then
      var results :- PushElements(spec, compName, rootId, obj, |obj.items|);
      Ok(Each(results))
    else
      PushOne(spec.compositions.vals[compName], rootId, GetId.GetId(spec.idKey, obj))
  }

  /** The first `n` elements of a pushed array, each pushed to the root's id; the first error ends the series. */
  function PushElements(spec: ModelSpec, compName: string, rootId: int, arr: Value, n: nat): (r: JsResult<seq<Pushed>>)
    requires compName in spec.compositions.vals && arr.Arr? && n <= |arr.items|
    ensures r.Ok? ==> |r.value| == n
    decreases arr, 0, n
  {
    if n == 0 then Ok([])
    else
      var prev :- PushElements(spec, compName, rootId, arr, n - 1);
      var p :- PushTo(spec, compName, rootId, arr.items[n - 1]);
      Ok(prev + [p])
  }

  /** A single object pushed to a saved root, given what `_getId` made of it. */
  function PushOne(comp: Composition, rootId: int, childId: JsResult<Option<int>>): (r: JsResult<Pushed>)
    ensures r.Ok? ==> r.value.One? && r.value.plan.root == rootId && r.value.plan.rel == comp.rel
    ensures r.Ok? ==> childId.Ok? && (r.value.plan.RelateExisting? <==> childId.value.Some? && childId.value.value != 0)
    ensures childId.Ok? ==> r.Ok?
  {
    var cid :- childId;
    if cid.Some? && cid.value != 0 then Ok(One(RelateExisting(rootId, comp.rel, cid.value)))
    else Ok(One(SaveThenRelate(comp.model, rootId, comp.rel)))
  }

  /**
   * A push to a root without a (non-zero) id fails with "You cannot push to
   * an unsaved model", whatever is pushed; a single object is planned against
   * the root's id, and related directly exactly when it has an id itself.
   */
  lemma PushNeedsSavedRoot(spec: ModelSpec, root: Value, compName: string, obj: Value)
    requires compName in spec.compositions.vals && root != Null
    ensures var r := PushComposition(spec, root, compName, obj);
      var rootId := GetId.GetId(spec.idKey, root).value;
      && ((rootId.None? || rootId.value == 0) ==> r == Err(Plain("You cannot push to an unsaved model")))
      && (r.Ok? && !obj.Arr? ==> r.value.plan.root == rootId.value)
      && (r.Ok? && !obj.Arr? ==>
            (r.value.plan.RelateExisting? <==> GetId.GetId(spec.idKey, obj).value.Some? && GetId.GetId(spec.idKey, obj).value.value != 0))
  {
    PushAfterGuards(spec, root, compName, obj);
    if PushGuardsPass(spec, root, compName) && !obj.Arr? {
      var rid := GetId.GetId(spec.idKey, root).value.value;
      assert PushTo(spec, compName, rid, obj) == PushOne(spec.compositions.vals[compName], rid, GetId.GetId(spec.idKey, obj));
    }
  }

  /** Going back through `pushComposition` with a saved root's id passes both guards and pushes to that id. */
  lemma PushReentry(spec: ModelSpec, compName: string, rootId: int, obj: Value)
    requires compName in spec.compositions.vals && rootId != 0
    ensures PushComposition(spec, Num(rootId), compName, obj) == PushTo(spec, compName, rootId, obj)
  {
    GetId.GetIdOfNumber(spec.idKey, rootId);
  }

  /** One more element: the series so far succeeds and so does that element. */
  lemma PushElementsOkStep(spec: ModelSpec, compName: string, rootId: int, arr: Value, n: nat)
    requires compName in spec.compositions.vals && arr.Arr? && 0 < n <= |arr.items|
    ensures PushElements(spec, compName, rootId, arr, n).Ok? <==>
      PushElements(spec, compName, rootId, arr, n - 1).Ok? && PushTo(spec, compName, rootId, arr.items[n - 1]).Ok?
  {
  }

  /** The first `n` elements are all pushed exactly when each of them, pushed alone, is. */
  lemma PushElementsIffEach(spec: ModelSpec, compName: string, rootId: int, arr: Value, n: nat)
    requires compName in spec.compositions.vals && arr.Arr? && n <= |arr.items|
    ensures PushElements(spec, compName, rootId, arr, n).Ok? <==>
      forall i | 0 <= i < n :: PushTo(spec, compName, rootId, arr.items[i]).Ok?
  {
    if PushElements(spec, compName, rootId, arr, n).Ok? {
      forall i | 0 <= i < n
        ensures PushTo(spec, compName, rootId, arr.items[i]).Ok?
      {
        PushElementsEach(spec, compName, rootId, arr, n, i);
      }
    } else if forall i | 0 <= i < n :: PushTo(spec, compName, rootId, arr.items[i]).Ok? {
      PushElementsAllOk(spec, compName, rootId, arr, n);
    }
  }

  /** When each of the first `n` elements, pushed alone, succeeds, so does the series. */
  lemma {:induction false} PushElementsAllOk(spec: ModelSpec, compName: string, rootId: int, arr: Value, n: nat)
    requires compName in spec.compositions.vals && arr.Arr? && n <= |arr.items|
    requires forall i | 0 <= i < n :: PushTo(spec, compName, rootId, arr.items[i]).Ok?
    ensures PushElements(spec, compName, rootId, arr, n).Ok?
  {
    if n > 0 {
      PushElementsAllOk(spec, compName, rootId, arr, n - 1);
      PushElementsOkStep(spec, compName, rootId, arr, n);
    }
  }

  /** When the first `n` elements are pushed, each yields what it yields pushed alone. */
  lemma {:induction false} PushElementsEach(spec: ModelSpec, compName: string, rootId: int, arr: Value, n: nat, i: nat)
    requires compName in spec.compositions.vals && arr.Arr? && i < n <= |arr.items|
    requires PushElements(spec, compName, rootId, arr, n).Ok?
    ensures PushTo(spec, compName, rootId, arr.items[i]).Ok?
    ensures PushElements(spec, compName, rootId, arr, n).value[i] == PushTo(spec, compName, rootId, arr.items[i]).value
  {
    if i < n - 1 {
      PushElementsEach(spec, compName, rootId, arr, n - 1, i);
    }
  }

  /** The guards: a known composition name and a root whose id is a non-zero number. */
  predicate PushGuardsPass(spec: ModelSpec, root: Value, compName: string)
  {
    var g := GetId.GetId(spec.idKey, root);
    compName in spec.compositions.vals && g.Ok? && g.value.Some? && g.value.value != 0
  }

  /** Past the guards, whatever is pushed goes to the root's id; otherwise every push fails. */
  lemma PushAfterGuards(spec: ModelSpec, root: Value, compName: string, obj: Value)
    ensures PushGuardsPass(spec, root, compName) ==>
      PushComposition(spec, root, compName, obj) == PushTo(spec, compName, GetId.GetId(spec.idKey, root).value.value, obj)
    ensures !PushGuardsPass(spec, root, compName) ==> PushComposition(spec, root, compName, obj).Err?
    ensures var g := GetId.GetId(spec.idKey, root);
      compName in spec.compositions.vals && g.Ok? && (g.value.None? || g.value.value == 0) ==>
        PushComposition(spec, root, compName, obj) == Err(Plain("You cannot push to an unsaved model"))
  {
  }

  /**
   * Pushing an array succeeds exactly when the guards pass (pushing an empty
   * array does) and every element, pushed alone, succeeds; then the element at
   * each position is planned as if pushed alone.
   */
  lemma PushArrayElementwise(spec: ModelSpec, root: Value, compName: string, items: seq<Value>)
    ensures PushComposition(spec, root, compName, Arr(items)).Ok? <==>
      && PushComposition(spec, root, compName, Arr([])).Ok?
      && forall i | 0 <= i < |items| :: PushComposition(spec, root, compName, items[i]).Ok?
    ensures PushComposition(spec, root, compName, Arr(items)).Ok? ==>
      forall i | 0 <= i < |items| ::
        PushComposition(spec, root, compName, Arr(items)).value.results[i] == PushComposition(spec, root, compName, items[i]).value
  {
    PushAfterGuards(spec, root, compName, Arr(items));
    PushAfterGuards(spec, root, compName, Arr([]));
    if PushGuardsPass(spec, root, compName) {
      var rid := GetId.GetId(spec.idKey, root).value.value;
      forall i | 0 <= i < |items|
        ensures PushComposition(spec, root, compName, items[i]) == PushTo(spec, compName, rid, items[i])
      {
        PushAfterGuards(spec, root, compName, items[i]);
      }
      assert PushElements(spec, compName, rid, Arr([]), 0) == Ok([]);
      PushElementsIffEach(spec, compName, rid, Arr(items), |items|);
      if PushComposition(spec, root, compName, Arr(items)).Ok? {
        forall i | 0 <= i < |items|
          ensures PushComposition(spec, root, compName, Arr(items)).value.results[i] == PushComposition(spec, root, compName, items[i]).value
        {
          PushElementsEach(spec, compName, rid, Arr(items), |items|, i);
        }
      }
    }
  }
}

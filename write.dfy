/**
 * lib/write.js's `save`: beforeCommit (prepare, validate and beforeSave on
 * the object and, recursively, on its composed children), commit (the root
 * stripped of its compositions, stale edges, every child and its edge),
 * indexAll (indexes of new objects) and afterCommit (sort, afterSave,
 * children, compute). The database is the log of requests of WriteSteps.
 */
module Write {
  import opened Wrappers
  import opened Js
  import opened Compositions
  import opened Hooks
  import opened SeraphModel
  import opened TransformComposedNodes
  import opened WriteSteps
  import SortCompositions

  /** The models of an application, by type; a composition names its model by type. */
  type Registry = map<string, ModelSpec>

  /** A model's compositions are well formed and name models of the registry. */
  ghost predicate Closed(reg: Registry, spec: ModelSpec)
  {
    && spec.compositions.Valid()
    && forall k | k in spec.compositions.vals :: spec.compositions.vals[k].model in reg
  }

  ghost predicate WellFormed(reg: Registry)
  {
    forall t | t in reg :: Closed(reg, reg[t])
  }

  /** What a composed value that is not an object makes the write path report. */
  const NotAnObject := TypeError("composed value is not an object")

  // ---- beforeCommit ----

  /**
   * The waterfall of the model's own listeners: prepare, validate on what
   * prepare produced, beforeSave.
   */
  function OwnHooks(spec: ModelSpec, ext: Ext, obj: Props): (r: JsResult<Props>)
    ensures spec.HasAllEvents() ==>
      (r.Ok? <==> spec.TriggerTransformEvent("prepare", ext, obj).Ok?
                  && spec.TriggerProgressionEvent("validate", ext, spec.TriggerTransformEvent("prepare", ext, obj).value).Ok?)
    ensures r.Ok? ==> r == spec.TriggerTransformEvent("prepare", ext, obj)
  {
    var prepared :- spec.TriggerTransformEvent("prepare", ext, obj);
    var valid :- spec.TriggerProgressionEvent("validate", ext, prepared);
    spec.TriggerEvent("beforeSave", valid)
  }

  /** The iterator beforeCommit hands to transformComposedNodes: beforeCommit of the child's own model. */
  function BeforeCommitStep(reg: Registry, ext: Ext, fuel: nat): Iterator
    requires WellFormed(reg)
    decreases fuel, 1
  {
    (c: Composition, v: Value, i: int) =>
      if c.model !in reg then Err(UnknownModel(c.model))
      else if !v.Obj? then Err(NotAnObject)
      else
        match BeforeCommit(reg, ext, fuel, reg[c.model], v.props)
        case Ok(r) => Ok(Obj(r))
        case Err(e) => Err(e)
  }

  /**
   * `beforeCommit(object)`: the model's own listeners, then beforeCommit of
   * every composed child, whose results replace the children. `fuel` bounds
   * the nesting depth.
   */
  function BeforeCommit(reg: Registry, ext: Ext, fuel: nat, spec: ModelSpec, obj: Props): JsResult<Props>
    requires WellFormed(reg) && Closed(reg, spec)
    decreases fuel, 0
  {
    if fuel == 0 then Err(OutOfFuel)
    else
      var ready :- OwnHooks(spec, ext, obj);
      TransformComps(spec.compositions, ready, ready, BeforeCommitStep(reg, ext, fuel - 1))
  }

  // ---- commit ----

  /** What committing an object yields: the saved object, and the reference its parent relates to. */
  datatype Committed = Committed(saved: Props, ref: Value)

  /** The reference a committed node is related by: the new id for a new node, the id it had otherwise. */
  function NodeRef(idKey: string, obj: Props, saved: Props): (r: Value)
    ensures !IsNewRoot(idKey, obj) ==> r == IdParam(idKey, Obj(obj))
    ensures IsNewRoot(idKey, obj) ==> r == IdParam(idKey, Obj(saved))
  {
    if IsNewRoot(idKey, obj) then IdParam(idKey, Obj(saved)) else IdParam(idKey, Obj(obj))
  }

  /**
   * The root's own requests in `commit` of a model with compositions: the
   * save of the clone stripped of the composition keys, then, for a root
   * that already had an id, the delete of its stale composition edges.
   */
  function RootWrites(spec: ModelSpec, cb: Callbacks, store: Store, obj: Props): (w: Written<Committed>)
    requires spec.compositions.Valid()
    ensures store.ops <= w.store.ops
  {
    var root := ExecuteSave(spec, cb, store, Stripped(obj, spec.compositions.keys));
    match root.result
    case Err(e) => Written(root.store, Err(e))
    case Ok(saved) =>
      var c := Committed(saved, NodeRef(spec.idKey, obj, saved));
      if IsNewRoot(spec.idKey, obj) then Written(root.store, Ok(c))
      else
        match DeleteOldCompositionRels(spec, obj)
        case Err(e) => Written(root.store, Err(e))
        case Ok(None) => Written(root.store, Ok(c))
        case Ok(Some(d)) => Written(Store(root.store.nextId, root.store.ops + [d]), Ok(c))
  }

  /**
   * `commit(db, object)`: a model without compositions saves the object as
   * it is. Otherwise the root's own requests come first, then every composed
   * child is committed with its own model and related to the root; the
   * result is the saved root extended with the saved children. The first
   * error ends the commit (the requests made before it stay in the log).
   */
  function Commit(reg: Registry, cb: Callbacks, fuel: nat, spec: ModelSpec, store: Store, obj: Props): (w: Written<Committed>)
    requires WellFormed(reg) && Closed(reg, spec)
    ensures store.ops <= w.store.ops
    decreases fuel, 2, 0
  {
    if fuel == 0 then Written(store, Err(OutOfFuel))
    else if spec.compositions.keys == [] then
      var w := ExecuteSave(spec, cb, store, obj);
      match w.result
      case Err(e) => Written(w.store, Err(e))
      case Ok(saved) => Written(w.store, Ok(Committed(saved, NodeRef(spec.idKey, obj, saved))))
    else
      var root := RootWrites(spec, cb, store, obj);
      match root.result
      case Err(e) => Written(root.store, Err(e))
      case Ok(c) =>
        var kids := CommitKeys(reg, cb, fuel, spec, IsNewRoot(spec.idKey, obj), c.ref, root.store, obj, spec.compositions.keys);
        match kids.result
        case Err(e) => Written(kids.store, Err(e))
        case Ok(rs) => Written(kids.store, Ok(Committed(Extend(c.saved, Assign(Empty(), spec.compositions.keys, rs)), c.ref)))
  }

  /**
   * The cardinality rule shared with the read path: nothing for a falsy
   * value, the saved child itself for a single child of a composition that
   * is not `many`, an array with one saved child per child otherwise.
   */
  predicate Shaped(comp: Composition, objects: Value, r: Value)
  {
    if !Truthy(objects) then r == Undefined
    else if |Wrap(objects)| == 1 && !comp.many then r.Obj?
    else r.Arr? && |r.items| == |Wrap(objects)|
  }

  /** The children of the listed composition keys committed in key order: one value per key, undefined for a falsy one. */
  function CommitKeys(reg: Registry, cb: Callbacks, fuel: nat, spec: ModelSpec, rootIsNew: bool, rootRef: Value,
                      store: Store, obj: Props, ks: seq<string>): (w: Written<seq<Value>>)
    requires WellFormed(reg) && Closed(reg, spec) && fuel > 0
    requires forall k | k in ks :: k in spec.compositions.vals
    ensures store.ops <= w.store.ops
    ensures w.result.Ok? ==> |w.result.value| == |ks|
    ensures w.result.Ok? ==> forall i | 0 <= i < |ks| :: Shaped(spec.compositions.vals[ks[i]], Get(obj, ks[i]), w.result.value[i])
    decreases fuel, 1, |ks|
  {
    if ks == [] then Written(store, Ok([]))
    else
      var prev := CommitKeys(reg, cb, fuel, spec, rootIsNew, rootRef, store, obj, ks[..|ks| - 1]);
      match prev.result
      case Err(e) => Written(prev.store, Err(e))
      case Ok(rs) =>
        var comp := spec.compositions.vals[ks[|ks| - 1]];
        var objects := Get(obj, ks[|ks| - 1]);
        if !Truthy(objects) then
          ShapedSnoc(spec.compositions, obj, ks, rs, Undefined);
          Written(prev.store, Ok(rs + [Undefined]))
        else
          var objs := Wrap(objects);
          var kids := CommitChildren(reg, cb, fuel, comp, rootIsNew, rootRef, prev.store, objs, |objs|);
          match kids.result
          case Err(e) => Written(kids.store, Err(e))
          case Ok(ts) =>
            CollapseShaped(comp, objects, ts);
            ShapedSnoc(spec.compositions, obj, ks, rs, Collapse(comp, ts));
            Written(kids.store, Ok(rs + [Collapse(comp, ts)]))
  }

  /** Committed children, one object per child, collapse to a value of the right shape. */
  lemma CollapseShaped(comp: Composition, objects: Value, ts: seq<Value>)
    requires Truthy(objects) && |ts| == |Wrap(objects)|
    requires forall t | t in ts :: t.Obj?
    ensures Shaped(comp, objects, Collapse(comp, ts))
  {
    if |ts| == 1 && !comp.many {
      assert ts[0] in ts;
    }
  }

  /** One more key whose value has the right shape keeps every key's value shaped. */
  lemma ShapedSnoc(comps: CompositionMap, obj: Props, ks: seq<string>, rs: seq<Value>, v: Value)
    requires ks != [] && forall k | k in ks :: k in comps.vals
    requires |rs| == |ks| - 1
    requires forall i | 0 <= i < |ks[..|ks| - 1]| :: Shaped(comps.vals[ks[..|ks| - 1][i]], Get(obj, ks[..|ks| - 1][i]), rs[i])
    requires Shaped(comps.vals[ks[|ks| - 1]], Get(obj, ks[|ks| - 1]), v)
    ensures forall i | 0 <= i < |ks| :: Shaped(comps.vals[ks[i]], Get(obj, ks[i]), (rs + [v])[i])
  {
    forall i | 0 <= i < |ks|
      ensures Shaped(comps.vals[ks[i]], Get(obj, ks[i]), (rs + [v])[i])
    {
      if i < |ks| - 1 {
        assert ks[..|ks| - 1][i] == ks[i];
      }
    }
  }

  /**
   * The first `n` children of a composition committed in order, each
   * followed by its edge from the root.
   */
  function CommitChildren(reg: Registry, cb: Callbacks, fuel: nat, comp: Composition, rootIsNew: bool, rootRef: Value,
                          store: Store, objs: seq<Value>, n: nat): (w: Written<seq<Value>>)
    requires WellFormed(reg) && comp.model in reg && fuel > 0 && n <= |objs|
    ensures store.ops <= w.store.ops
    ensures w.result.Ok? ==> |w.result.value| == n && forall t | t in w.result.value :: t.Obj?
    decreases fuel, 0, n
  {
    if n == 0 then Written(store, Ok([]))
    else
      var prev := CommitChildren(reg, cb, fuel, comp, rootIsNew, rootRef, store, objs, n - 1);
      match prev.result
      case Err(e) => Written(prev.store, Err(e))
      case Ok(ts) =>
        var w := CommitChild(reg, cb, fuel, comp, rootIsNew, rootRef, prev.store, objs[n - 1]);
        match w.result
        case Err(e) => Written(w.store, Err(e))
        case Ok(t) =>
          ObjectsSnoc(ts, t);
          Written(w.store, Ok(ts + [t]))
  }

  /**
   * One child committed with the composition's model, then its edge from the
   * root: a plain relate when the child or the root is new, a
   * relate-if-not-related otherwise. A child that is not an object fails.
   */
  function CommitChild(reg: Registry, cb: Callbacks, fuel: nat, comp: Composition, rootIsNew: bool, rootRef: Value,
                       store: Store, child: Value): (w: Written<Value>)
    requires WellFormed(reg) && comp.model in reg && fuel > 0
    ensures store.ops <= w.store.ops
    ensures w.result.Ok? ==> w.result.value.Obj? && child.Obj? && |w.store.ops| > |store.ops|
    ensures w.result.Ok? ==>
      var edge := w.store.ops[|w.store.ops| - 1];
      && (edge.Relate? <==> rootIsNew || IsNewChild(reg[comp.model].idKey, child.props))
      && (edge.Relate? ==> edge.root == rootRef && edge.rel == comp.rel)
      && (!edge.Relate? ==> edge.Query? && edge.cypher == RelateIfNotRelatedCypher(comp.rel) && Get(edge.params, "root") == rootRef)
    decreases fuel, 0, 0
  {
    if !child.Obj? then Written(store, Err(NotAnObject))
    else
      var cspec := reg[comp.model];
      var w := Commit(reg, cb, fuel - 1, cspec, store, child.props);
      match w.result
      case Err(e) => Written(w.store, Err(e))
      case Ok(c) =>
        var edge := RelateOp(IsNewChild(cspec.idKey, child.props), rootIsNew, rootRef, comp.rel, c.ref);
        EdgeFromRoot(IsNewChild(cspec.idKey, child.props), rootIsNew, rootRef, comp.rel, c.ref);
        Written(Store(w.store.nextId, w.store.ops + [edge]), Ok(Obj(c.saved)))
  }

  lemma ObjectsSnoc(ts: seq<Value>, t: Value)
    requires t.Obj? && forall x | x in ts :: x.Obj?
    ensures forall x | x in ts + [t] :: x.Obj?
  {
  }

  // ---- indexAll ----

  /**
   * How `indexAll` ends: its callback receives an error, its index data
   * resolves (and, at the root, the batch is committed), or neither ever
   * happens because a composed child's indexing failed.
   */
  datatype IndexOutcome = Refused(error: Error) | Resolved | Unresolved

  datatype Indexed = Indexed(store: Store, outcome: IndexOutcome)

  /** The saved counterpart of the child at position `i`: the element at `i` of an array, the value itself otherwise. */
  function PostsaveChild(post: Value, i: int): Value
  {
    if !post.Arr? then post
    else if 0 <= i < |post.items| then post.items[i]
    else Undefined
  }

  /** Both parts resolved. */
  function Both(a: IndexOutcome, b: IndexOutcome): (r: IndexOutcome)
    ensures r.Resolved? <==> a.Resolved? && b.Resolved?
    ensures !r.Refused?
  {
    if a.Resolved? && b.Resolved? then Resolved else Unresolved
  }

  /**
   * `indexAll(db, presave, postsave)`: an object that had an id before the
   * save is not indexed again; a new one is indexed as saved (`postsave`),
   * and an error there reaches the callback and stops it. Then every
   * composed child of `presave` is indexed with its own model, its saved
   * counterpart found under the composition's name in `postsave`. A child's
   * error is not passed on: the index data then never resolves.
   */
  function IndexAll(reg: Registry, cb: Callbacks, fuel: nat, spec: ModelSpec, store: Store, presave: Value, postsave: Value): (r: Indexed)
    requires WellFormed(reg) && Closed(reg, spec)
    ensures store.ops <= r.store.ops
    decreases fuel, 2, 0
  {
    if fuel == 0 then Indexed(store, Refused(OutOfFuel))
    else if Nullish(presave) then Indexed(store, Refused(TypeError("Cannot read property '" + spec.idKey + "' of " + ToStr(presave))))
    else
      var own := if Truthy(Member(presave, spec.idKey)) then Written(store, Ok(postsave))
                 else IndexObject(cb, spec.indexes, store, postsave);
      match own.result
      case Err(e) => Indexed(own.store, Refused(e))
      case Ok(_) => IndexKeys(reg, cb, fuel, spec, own.store, presave, postsave, spec.compositions.keys)
  }

  /** The children under the listed composition keys indexed in key order; resolved when all of them resolve. */
  function IndexKeys(reg: Registry, cb: Callbacks, fuel: nat, spec: ModelSpec, store: Store,
                     presave: Value, postsave: Value, ks: seq<string>): (r: Indexed)
    requires WellFormed(reg) && Closed(reg, spec) && fuel > 0
    requires forall k | k in ks :: k in spec.compositions.vals
    ensures store.ops <= r.store.ops
    ensures !r.outcome.Refused?
    decreases fuel, 1, |ks|
  {
    if ks == [] then Indexed(store, Resolved)
    else
      var prev := IndexKeys(reg, cb, fuel, spec, store, presave, postsave, ks[..|ks| - 1]);
      var comp := spec.compositions.vals[ks[|ks| - 1]];
      var objects := Member(presave, ks[|ks| - 1]);
      if !Truthy(objects) then prev
      else
        var objs := Wrap(objects);
        var kids := IndexChildren(reg, cb, fuel, comp, prev.store, objs, |objs|, Member(postsave, comp.name));
        Indexed(kids.store, Both(prev.outcome, kids.outcome))
  }

  /** The first `n` children of a composition indexed in order; resolved when all of them resolve. */
  function IndexChildren(reg: Registry, cb: Callbacks, fuel: nat, comp: Composition, store: Store,
                         objs: seq<Value>, n: nat, post: Value): (r: Indexed)
    requires WellFormed(reg) && comp.model in reg && fuel > 0 && n <= |objs|
    ensures store.ops <= r.store.ops
    ensures !r.outcome.Refused?
    decreases fuel, 0, n
  {
    if n == 0 then Indexed(store, Resolved)
    else
      var prev := IndexChildren(reg, cb, fuel, comp, store, objs, n - 1, post);
      var child := objs[n - 1];
      var one := IndexAll(reg, cb, fuel - 1, reg[comp.model], prev.store, child, PostsaveChild(post, ChildIndex(objs, n - 1)));
      Indexed(one.store, Both(prev.outcome, one.outcome))
  }

  // ---- afterCommit ----

  /** The iterator afterCommit hands to transformComposedNodes: afterCommit of the child's own model. */
  function AfterCommitStep(reg: Registry, cb: Callbacks, fuel: nat): Iterator
    requires WellFormed(reg)
    decreases fuel, 1
  {
    (c: Composition, v: Value, i: int) =>
      if c.model !in reg then Err(UnknownModel(c.model))
      else if !v.Obj? then Err(NotAnObject)
      else
        match AfterCommit(reg, cb, fuel, reg[c.model], v.props)
        case Ok(r) => Ok(Obj(r))
        case Err(e) => Err(e)
  }

  /**
   * What the sorts of afterCommit leave in an object tree: `sortComps` runs
   * in place on the object, and every composed child is sorted the same
   * way by its own model, before any child can report an error.
   */
  function SortTree(reg: Registry, fuel: nat, spec: ModelSpec, obj: Props): (r: Props)
    requires WellFormed(reg) && Closed(reg, spec)
    ensures r.keys == obj.keys && r.vals.Keys == obj.vals.Keys
    decreases fuel, 0
  {
    if fuel == 0 then obj
    else
      var sorted := SortCompositions.SortAll(spec.compositions, spec.compositions.keys, obj);
      SortKeys(reg, fuel - 1, spec.compositions, spec.compositions.keys, sorted)
  }

  /** The listed composition keys' children, each sorted by `SortTree` of its model. */
  function SortKeys(reg: Registry, fuel: nat, comps: CompositionMap, ks: seq<string>, p: Props): (r: Props)
    requires WellFormed(reg) && forall k | k in ks :: k in comps.vals
    ensures r.keys == p.keys && r.vals.Keys == p.vals.Keys
    decreases fuel, 2, |ks|
  {
    if ks == [] then p
    else
      var q := SortKeys(reg, fuel, comps, ks[..|ks| - 1], p);
      var k := ks[|ks| - 1];
      var c := comps.vals[k];
      var v := Get(q, k);
      if c.model !in reg || !(v.Arr? || v.Obj?) then q
      else if v.Arr? then q.Put(k, Arr(SortItems(reg, fuel, reg[c.model], v.items)))
      else q.Put(k, Obj(SortTree(reg, fuel, reg[c.model], v.props)))
  }

  /** Each object child replaced, in its place, by its sorted tree; other values stay. */
  function SortItems(reg: Registry, fuel: nat, spec: ModelSpec, items: seq<Value>): (r: seq<Value>)
    requires WellFormed(reg) && Closed(reg, spec)
    ensures |r| == |items|
    ensures forall i | 0 <= i < |items| ::
      r[i] == if items[i].Obj? then Obj(SortTree(reg, fuel, spec, items[i].props)) else items[i]
    decreases fuel, 1, |items|
  {
    if items == [] then []
    else
      var v := items[|items| - 1];
      SortItems(reg, fuel, spec, items[..|items| - 1]) + [if v.Obj? then Obj(SortTree(reg, fuel, spec, v.props)) else v]
  }

  /**
   * afterCommit once afterSave is triggered with a callback: the composition
   * arrays are sorted, the afterSave listeners are notified, every composed
   * child goes through afterCommit of its own model, and the result is what
   * `compute` makes of the object. An error from a child is ignored; the
   * children are then as the in-place sorts left them (`SortKeys`).
   */
  function AfterCommit(reg: Registry, cb: Callbacks, fuel: nat, spec: ModelSpec, obj: Props): JsResult<Props>
    requires WellFormed(reg) && Closed(reg, spec)
    decreases fuel, 0
  {
    if fuel == 0 then Err(OutOfFuel)
    else
      var sorted := SortCompositions.SortAll(spec.compositions, spec.compositions.keys, obj);
      var notified :- spec.TriggerEvent("afterSave", sorted);
      var after := AfterChildren(reg, cb, fuel - 1, spec, notified);
      cb.compute(spec.modelType, after)
  }

  /**
   * The object once its children have been through afterCommit: the
   * transformed children on success, or the children as the in-place sorts
   * left them when one of them failed.
   */
  function AfterChildren(reg: Registry, cb: Callbacks, fuel: nat, spec: ModelSpec, notified: Props): Props
    requires WellFormed(reg) && Closed(reg, spec)
    decreases fuel, 2
  {
    match TransformComps(spec.compositions, notified, notified, AfterCommitStep(reg, cb, fuel))
    case Ok(t) => t
    case Err(_) => SortKeys(reg, fuel, spec.compositions, spec.compositions.keys, notified)
  }

  /** What a call of `undefined` throws. */
  const CallbackMissing := TypeError("callback is not a function")

  /**
   * afterCommit as written: it triggers afterSave without a callback, and
   * triggerEvent calls its callback once the listeners have run, so the call
   * throws after the sort and the notification; the children and `compute`
   * are never reached.
   */
  function AfterCommitAsWritten(spec: ModelSpec, obj: Props): (r: JsResult<Props>)
    requires spec.compositions.Valid()
    ensures "afterSave" in spec.events ==> r == Err(CallbackMissing)
  {
    var sorted := SortCompositions.SortAll(spec.compositions, spec.compositions.keys, obj);
    var _ :- spec.TriggerEvent("afterSave", sorted);
    Err(CallbackMissing)
  }

  // ---- save ----

  /** Whether the save's callback is ever called, and with what. */
  datatype Answer = Answered(result: JsResult<Props>) | Unanswered

  /** The database after a save, and the save's answer. */
  datatype WriteRun = WriteRun(store: Store, answer: Answer)

  /**
   * `save(object)` of lib/write.js: beforeCommit on the whole tree; then
   * commit; then indexAll of the object as it was before the commit and as
   * saved; then afterCommit. The first error is the answer, and an index
   * that never resolves leaves the save unanswered.
   */
  function SaveModel(reg: Registry, ext: Ext, cb: Callbacks, fuel: nat, spec: ModelSpec, store: Store, obj: Props): (r: WriteRun)
    requires WellFormed(reg) && Closed(reg, spec)
    ensures store.ops <= r.store.ops
  {
    match BeforeCommit(reg, ext, fuel, spec, obj)
    case Err(e) => WriteRun(store, Answered(Err(e)))
    case Ok(ready) =>
      var c := Commit(reg, cb, fuel, spec, store, ready);
      match c.result
      case Err(e) => WriteRun(c.store, Answered(Err(e)))
      case Ok(committed) =>
        var ix := IndexAll(reg, cb, fuel, spec, c.store, Obj(ready), Obj(committed.saved));
        match ix.outcome
        case Refused(e) => WriteRun(ix.store, Answered(Err(e)))
        case Unresolved => WriteRun(ix.store, Unanswered)
        case Resolved => WriteRun(ix.store, Answered(AfterCommit(reg, cb, fuel, spec, committed.saved)))
  }

  // ---- what the write path promises ----

  /**
   * A composed child that fails its own beforeCommit (or is not an object)
   * fails the whole save before anything is written: the database receives
   * no request at all.
   */
  lemma FailingChildFailsSave(reg: Registry, ext: Ext, cb: Callbacks, fuel: nat, spec: ModelSpec, store: Store, obj: Props, k: string, j: nat)
    requires WellFormed(reg) && Closed(reg, spec) && fuel > 0
    requires OwnHooks(spec, ext, obj).Ok? && k in spec.compositions.vals
    requires var ready := OwnHooks(spec, ext, obj).value;
      && Truthy(Get(ready, k)) && j < |Wrap(Get(ready, k))|
      && var child := Wrap(Get(ready, k))[j];
         !child.Obj? || BeforeCommit(reg, ext, fuel - 1, reg[spec.compositions.vals[k].model], child.props).Err?
    ensures BeforeCommit(reg, ext, fuel, spec, obj).Err?
    ensures SaveModel(reg, ext, cb, fuel, spec, store, obj) == WriteRun(store, Answered(BeforeCommit(reg, ext, fuel, spec, obj)))
  {
    var ready := OwnHooks(spec, ext, obj).value;
    var comp := spec.compositions.vals[k];
    var iter := BeforeCommitStep(reg, ext, fuel - 1);
    var objs := Wrap(Get(ready, k));
    assert iter(comp, objs[j], ChildIndex(objs, j)).Err?;
    FailingChildFailsTransform(spec.compositions, ready, ready, iter, k, j);
  }

  /**
   * After beforeCommit, a property that is not a composition key, or whose
   * composition holds nothing, is as the model's own listeners left it.
   */
  lemma BeforeCommitKeepsOwnProperties(reg: Registry, ext: Ext, fuel: nat, spec: ModelSpec, obj: Props, k: string)
    requires WellFormed(reg) && Closed(reg, spec)
    requires BeforeCommit(reg, ext, fuel, spec, obj).Ok?
    requires k !in spec.compositions.vals || !Truthy(Get(OwnHooks(spec, ext, obj).value, k))
    ensures OwnHooks(spec, ext, obj).Ok?
    ensures Get(BeforeCommit(reg, ext, fuel, spec, obj).value, k) == Get(OwnHooks(spec, ext, obj).value, k)
  {
    var ready := OwnHooks(spec, ext, obj).value;
    var iter := BeforeCommitStep(reg, ext, fuel - 1);
    if k !in spec.compositions.vals {
      OtherKeysUntouched(spec.compositions, ready, ready, iter, k);
    } else {
      CompositionKeyResult(spec.compositions, ready, ready, iter, k);
    }
  }

  /**
   * The root's own requests: the save of the stripped clone, followed by a
   * delete of stale edges exactly when the root already had an id; that
   * delete removes every composition edge when no child has an id to keep.
   */
  lemma RootWritesDeleteOnlyForExisting(spec: ModelSpec, cb: Callbacks, store: Store, obj: Props)
    requires spec.compositions.Valid() && spec.compositions.keys != []
    requires RootWrites(spec, cb, store, obj).result.Ok?
    ensures var w := RootWrites(spec, cb, store, obj);
      var saved := ExecuteSave(spec, cb, store, Stripped(obj, spec.compositions.keys)).store;
      var rels := CompositionRelationCypherList.CypherComposedRelationList(spec.compositions);
      && (IsNewRoot(spec.idKey, obj) ==> w.store == saved)
      && (!IsNewRoot(spec.idKey, obj) ==>
            && |w.store.ops| == |saved.ops| + 1
            && w.store.ops[..|saved.ops|] == saved.ops
            && var d := w.store.ops[|saved.ops|];
               && d.Query?
               && Get(d.params, "rootId") == IdParam(spec.idKey, Obj(obj))
               && (d.cypher == DeleteAllCypher(rels) <==> ExcludeList(spec.idKey, spec.compositions.keys, obj).value == []))
  {
    if !IsNewRoot(spec.idKey, obj) {
      RootWritesOfExisting(spec, cb, store, obj);
      DeleteQueryChoice(spec, obj);
      var saved := ExecuteSave(spec, cb, store, Stripped(obj, spec.compositions.keys)).store;
      var d := DeleteOldCompositionRels(spec, obj).value.value;
      assert (saved.ops + [d])[..|saved.ops|] == saved.ops;
    }
  }

  /** For a root that already had an id, the root's requests are the save followed by the delete request. */
  lemma RootWritesOfExisting(spec: ModelSpec, cb: Callbacks, store: Store, obj: Props)
    requires spec.compositions.Valid() && spec.compositions.keys != []
    requires RootWrites(spec, cb, store, obj).result.Ok? && !IsNewRoot(spec.idKey, obj)
    ensures ExcludeList(spec.idKey, spec.compositions.keys, obj).Ok?
    ensures DeleteOldCompositionRels(spec, obj).Ok? && DeleteOldCompositionRels(spec, obj).value.Some?
    ensures var saved := ExecuteSave(spec, cb, store, Stripped(obj, spec.compositions.keys)).store;
      RootWrites(spec, cb, store, obj).store.ops == saved.ops + [DeleteOldCompositionRels(spec, obj).value.value]
  {
    var rels := CompositionRelationCypherList.CypherComposedRelationList(spec.compositions);
    CompositionRelationCypherList.EmptyIffNoCompositions(spec.compositions);
    assert rels != "";
  }

  /**
   * A commit of a model with compositions first saves the root alone: its
   * first request stores the object without any composition key.
   */
  lemma CommitSavesRootWithoutCompositions(reg: Registry, cb: Callbacks, fuel: nat, spec: ModelSpec, store: Store, obj: Props)
    requires WellFormed(reg) && Closed(reg, spec) && obj.Valid()
    requires spec.compositions.keys != [] && Commit(reg, cb, fuel, spec, store, obj).result.Ok?
    ensures var w := Commit(reg, cb, fuel, spec, store, obj);
      && |w.store.ops| > |store.ops|
      && (w.store.ops[|store.ops|].Save? || w.store.ops[|store.ops|].SaveUnique?)
      && w.store.ops[|store.ops|].node == Stripped(obj, spec.compositions.keys)
      && forall k | k in spec.compositions.vals :: k !in w.store.ops[|store.ops|].node.vals
  {
    CommitWithCompositions(reg, cb, fuel, spec, store, obj);
    RootWritesSaveFirst(spec, cb, store, obj);
    var root := RootWrites(spec, cb, store, obj);
    var w := Commit(reg, cb, fuel, spec, store, obj);
    assert root.store.ops <= w.store.ops;
    assert w.store.ops[|store.ops|] == root.store.ops[|store.ops|];
    StrippedContents(obj, spec.compositions.keys);
  }

  /** The root's own requests start with the save of the object stripped of its composition keys. */
  lemma RootWritesSaveFirst(spec: ModelSpec, cb: Callbacks, store: Store, obj: Props)
    requires spec.compositions.Valid() && RootWrites(spec, cb, store, obj).result.Ok?
    ensures var ops := RootWrites(spec, cb, store, obj).store.ops;
      && |ops| > |store.ops|
      && (ops[|store.ops|].Save? || ops[|store.ops|].SaveUnique?)
      && ops[|store.ops|].node == Stripped(obj, spec.compositions.keys)
  {
    var stripped := Stripped(obj, spec.compositions.keys);
    UniqueSaveOnlyWhenNew(spec, cb, store, stripped);
    var saved := ExecuteSave(spec, cb, store, stripped);
    assert saved.store.ops <= RootWrites(spec, cb, store, obj).store.ops;
  }

  /** A successful commit of a model with compositions: the root's own requests, then the children's. */
  lemma CommitWithCompositions(reg: Registry, cb: Callbacks, fuel: nat, spec: ModelSpec, store: Store, obj: Props)
    requires WellFormed(reg) && Closed(reg, spec) && spec.compositions.keys != []
    requires Commit(reg, cb, fuel, spec, store, obj).result.Ok?
    ensures fuel > 0 && RootWrites(spec, cb, store, obj).result.Ok?
    ensures var root := RootWrites(spec, cb, store, obj);
      var c := root.result.value;
      var kids := CommitKeys(reg, cb, fuel, spec, IsNewRoot(spec.idKey, obj), c.ref, root.store, obj, spec.compositions.keys);
      && kids.result.Ok?
      && Commit(reg, cb, fuel, spec, store, obj)
         == Written(kids.store, Ok(Committed(Extend(c.saved, Assign(Empty(), spec.compositions.keys, kids.result.value)), c.ref)))
  {
  }

  /**
   * Each committed child is followed by its edge from the root: a plain
   * relate exactly when the child (falsy id) or the root (null id) is new,
   * otherwise the create guarded by the absence of such an edge; both start
   * at the root's reference and carry the composition's relationship.
   */
  lemma EachChildFollowedByItsEdge(reg: Registry, cb: Callbacks, fuel: nat, comp: Composition, rootIsNew: bool, rootRef: Value,
                                   store: Store, objs: seq<Value>, n: nat)
    requires WellFormed(reg) && comp.model in reg && fuel > 0 && 0 < n <= |objs|
    requires CommitChildren(reg, cb, fuel, comp, rootIsNew, rootRef, store, objs, n).result.Ok?
    ensures var w := CommitChildren(reg, cb, fuel, comp, rootIsNew, rootRef, store, objs, n);
      var child := objs[n - 1];
      && child.Obj? && |w.store.ops| > 0
      && var edge := w.store.ops[|w.store.ops| - 1];
         && (edge.Relate? <==> rootIsNew || IsNewChild(reg[comp.model].idKey, child.props))
         && (edge.Relate? ==> edge.root == rootRef && edge.rel == comp.rel)
         && (!edge.Relate? ==> edge.Query? && edge.cypher == RelateIfNotRelatedCypher(comp.rel) && Get(edge.params, "root") == rootRef)
  {
    var prev := CommitChildren(reg, cb, fuel, comp, rootIsNew, rootRef, store, objs, n - 1);
    assert prev.result.Ok?;
    var last := CommitChild(reg, cb, fuel, comp, rootIsNew, rootRef, prev.store, objs[n - 1]);
    assert last.result.Ok?;
    assert last.store == CommitChildren(reg, cb, fuel, comp, rootIsNew, rootRef, store, objs, n).store;
  }

  /** Either form of the edge starts at the root's reference and carries the relationship. */
  lemma EdgeFromRoot(childIsNew: bool, rootIsNew: bool, root: Value, rel: string, child: Value)
    ensures var edge := RelateOp(childIsNew, rootIsNew, root, rel, child);
      && (edge.Relate? ==> edge.root == root && edge.rel == rel)
      && (!edge.Relate? ==> edge.Query? && edge.cypher == RelateIfNotRelatedCypher(rel) && Get(edge.params, "root") == root)
  {
    var params := Empty<Value>().Put("root", root);
    assert Get(params.Put("target", child), "root") == Get(params, "root");
  }

  /** The saved root extended with the children keeps the root's other properties. */
  lemma ExtendedRootKeeps(spec: ModelSpec, cb: Callbacks, store: Store, obj: Props, a: Props, k: string)
    requires spec.compositions.Valid() && obj.Valid() && a.Valid()
    requires RootWrites(spec, cb, store, obj).result.Ok?
    requires forall j | j in a.vals :: j in spec.compositions.keys
    requires k !in spec.compositions.vals && k != spec.idKey
    ensures Get(Extend(RootWrites(spec, cb, store, obj).result.value.saved, a), k) == Get(obj, k)
  {
    var keys := spec.compositions.keys;
    var saved := RootWrites(spec, cb, store, obj).result.value.saved;
    var stripped := Stripped(obj, keys);
    calc {
      Get(Extend(saved, a), k);
      { ExtendContents(saved, a); }
      Get(saved, k);
      { assert saved == ExecuteSave(spec, cb, store, stripped).result.value; }
      Get(stripped, k);
      { StrippedContents(obj, keys); }
      Get(obj, k);
    }
  }

  /** Commit hands back every property of the object that is neither a composition nor the id as it was. */
  lemma CommitKeepsOwnProperties(reg: Registry, cb: Callbacks, fuel: nat, spec: ModelSpec, store: Store, obj: Props, k: string)
    requires WellFormed(reg) && Closed(reg, spec) && obj.Valid()
    requires Commit(reg, cb, fuel, spec, store, obj).result.Ok?
    requires k !in spec.compositions.vals && k != spec.idKey
    ensures Get(Commit(reg, cb, fuel, spec, store, obj).result.value.saved, k) == Get(obj, k)
  {
    var keys := spec.compositions.keys;
    if keys != [] {
      CommitWithCompositions(reg, cb, fuel, spec, store, obj);
      var root := RootWrites(spec, cb, store, obj);
      var kids := CommitKeys(reg, cb, fuel, spec, IsNewRoot(spec.idKey, obj), root.result.value.ref, root.store, obj, keys);
      AssignShape(Empty(), keys, kids.result.value);
      ExtendedRootKeeps(spec, cb, store, obj, Assign(Empty(), keys, kids.result.value), k);
    }
  }

  /** A truthy child result assigned under its key shows through the extension of the saved root. */
  lemma ExtendedRootHolds(saved: Props, keys: seq<string>, rs: seq<Value>, i: nat)
    requires |keys| == |rs| && Distinct(keys) && i < |keys| && Truthy(rs[i])
    ensures Get(Extend(saved, Assign(Empty(), keys, rs)), keys[i]) == rs[i]
  {
    var a := Assign(Empty(), keys, rs);
    AssignAt(Empty(), keys, rs, i);
    AssignShape(Empty(), keys, rs);
    ExtendContents(saved, a);
  }

  /**
   * What commit hands back under a composition key follows the cardinality
   * rule: the saved child itself for a single child of a composition that is
   * not `many`, an array with one saved child per child otherwise.
   */
  lemma CommitCardinality(reg: Registry, cb: Callbacks, fuel: nat, spec: ModelSpec, store: Store, obj: Props, k: string)
    requires WellFormed(reg) && Closed(reg, spec)
    requires Commit(reg, cb, fuel, spec, store, obj).result.Ok?
    requires k in spec.compositions.vals && Truthy(Get(obj, k))
    ensures var v := Get(Commit(reg, cb, fuel, spec, store, obj).result.value.saved, k);
      if |Wrap(Get(obj, k))| == 1 && !spec.compositions.vals[k].many then v.Obj?
      else v.Arr? && |v.items| == |Wrap(Get(obj, k))|
  {
    var keys := spec.compositions.keys;
    CommitWithCompositions(reg, cb, fuel, spec, store, obj);
    var root := RootWrites(spec, cb, store, obj);
    var kids := CommitKeys(reg, cb, fuel, spec, IsNewRoot(spec.idKey, obj), root.result.value.ref, root.store, obj, keys);
    var rs := kids.result.value;
    var i :| 0 <= i < |keys| && keys[i] == k;
    assert Shaped(spec.compositions.vals[k], Get(obj, k), rs[i]);
    ExtendedRootHolds(root.result.value.saved, keys, rs, i);
  }

  // ---- what indexAll promises ----

  /**
   * A new object's own index entries are the first requests of indexAll, all
   * for the object as saved; an error there is handed to the callback before
   * any child is indexed.
   */
  lemma NewObjectIndexedFirst(reg: Registry, cb: Callbacks, fuel: nat, spec: ModelSpec, store: Store, presave: Value, postsave: Value)
    requires WellFormed(reg) && Closed(reg, spec) && fuel > 0
    requires !Nullish(presave) && !Truthy(Member(presave, spec.idKey))
    ensures var own := IndexObject(cb, spec.indexes, store, postsave);
      var r := IndexAll(reg, cb, fuel, spec, store, presave, postsave);
      && own.store.ops <= r.store.ops
      && (forall i | |store.ops| <= i < |own.store.ops| :: r.store.ops[i].IndexEntry? && r.store.ops[i].indexed == postsave)
      && (own.result.Err? ==> r == Indexed(own.store, Refused(own.result.error)))
  {
    IndexObjectRequestsEntries(cb, spec.indexes, store, postsave);
  }

  /** An object that had an id before the save is not indexed again: only its children are. */
  lemma ExistingObjectNotReindexed(reg: Registry, cb: Callbacks, fuel: nat, spec: ModelSpec, store: Store, presave: Value, postsave: Value)
    requires WellFormed(reg) && Closed(reg, spec) && fuel > 0
    requires !Nullish(presave) && Truthy(Member(presave, spec.idKey))
    ensures IndexAll(reg, cb, fuel, spec, store, presave, postsave)
         == IndexKeys(reg, cb, fuel, spec, store, presave, postsave, spec.compositions.keys)
  {
  }

  /** How indexAll ends does not depend on the requests made before it. */
  lemma {:induction false} IndexAllOutcomeStoreFree(reg: Registry, cb: Callbacks, fuel: nat, spec: ModelSpec, s1: Store, s2: Store,
                                                    presave: Value, postsave: Value)
    requires WellFormed(reg) && Closed(reg, spec)
    ensures IndexAll(reg, cb, fuel, spec, s1, presave, postsave).outcome == IndexAll(reg, cb, fuel, spec, s2, presave, postsave).outcome
    decreases fuel, 2, 0
  {
    if fuel > 0 && !Nullish(presave) {
      IndexObjectResultStoreFree(cb, spec.indexes, s1, s2, postsave);
      var o1 := if Truthy(Member(presave, spec.idKey)) then Written(s1, Ok(postsave)) else IndexObject(cb, spec.indexes, s1, postsave);
      var o2 := if Truthy(Member(presave, spec.idKey)) then Written(s2, Ok(postsave)) else IndexObject(cb, spec.indexes, s2, postsave);
      if o1.result.Ok? {
        IndexKeysOutcomeStoreFree(reg, cb, fuel, spec, o1.store, o2.store, presave, postsave, spec.compositions.keys);
      }
    }
  }

  lemma {:induction false} IndexKeysOutcomeStoreFree(reg: Registry, cb: Callbacks, fuel: nat, spec: ModelSpec, s1: Store, s2: Store,
                                                     presave: Value, postsave: Value, ks: seq<string>)
    requires WellFormed(reg) && Closed(reg, spec) && fuel > 0
    requires forall k | k in ks :: k in spec.compositions.vals
    ensures IndexKeys(reg, cb, fuel, spec, s1, presave, postsave, ks).outcome
         == IndexKeys(reg, cb, fuel, spec, s2, presave, postsave, ks).outcome
    decreases fuel, 1, |ks|
  {
    if ks != [] {
      var init := ks[..|ks| - 1];
      IndexKeysOutcomeStoreFree(reg, cb, fuel, spec, s1, s2, presave, postsave, init);
      var objects := Member(presave, ks[|ks| - 1]);
      if Truthy(objects) {
        var comp := spec.compositions.vals[ks[|ks| - 1]];
        var objs := Wrap(objects);
        IndexChildrenOutcomeStoreFree(reg, cb, fuel, comp,
          IndexKeys(reg, cb, fuel, spec, s1, presave, postsave, init).store,
          IndexKeys(reg, cb, fuel, spec, s2, presave, postsave, init).store,
          objs, |objs|, Member(postsave, comp.name));
      }
    }
  }

  lemma {:induction false} IndexChildrenOutcomeStoreFree(reg: Registry, cb: Callbacks, fuel: nat, comp: Composition, s1: Store, s2: Store,
                                                         objs: seq<Value>, n: nat, post: Value)
    requires WellFormed(reg) && comp.model in reg && fuel > 0 && n <= |objs|
    ensures IndexChildren(reg, cb, fuel, comp, s1, objs, n, post).outcome == IndexChildren(reg, cb, fuel, comp, s2, objs, n, post).outcome
    decreases fuel, 0, n
  {
    if n > 0 {
      IndexChildrenOutcomeStoreFree(reg, cb, fuel, comp, s1, s2, objs, n - 1, post);
      var child := objs[n - 1];
      IndexAllOutcomeStoreFree(reg, cb, fuel - 1, reg[comp.model],
        IndexChildren(reg, cb, fuel, comp, s1, objs, n - 1, post).store,
        IndexChildren(reg, cb, fuel, comp, s2, objs, n - 1, post).store,
        child, PostsaveChild(post, ChildIndex(objs, n - 1)));
    }
  }

  /** The index of a composition's children resolves exactly when every child, indexed on its own, resolves. */
  lemma {:induction false} ChildrenResolveIffEach(reg: Registry, cb: Callbacks, fuel: nat, comp: Composition, store: Store,
                                                  objs: seq<Value>, n: nat, post: Value)
    requires WellFormed(reg) && comp.model in reg && fuel > 0 && n <= |objs|
    ensures IndexChildren(reg, cb, fuel, comp, store, objs, n, post).outcome.Resolved? <==>
      forall j | 0 <= j < n :: ChildResolved(reg, cb, fuel, comp, store, objs, post, j)
  {
    if n > 0 {
      ChildrenResolvedStep(reg, cb, fuel, comp, store, objs, n, post);
      ChildrenResolveIffEach(reg, cb, fuel, comp, store, objs, n - 1, post);
      ChildrenResolvedSplit(reg, cb, fuel, comp, store, objs, post, n);
    }
  }

  /** Every one of the first `n` children resolves exactly when the first `n - 1` and child `n - 1` do. */
  lemma ChildrenResolvedSplit(reg: Registry, cb: Callbacks, fuel: nat, comp: Composition, store: Store,
                              objs: seq<Value>, post: Value, n: nat)
    requires WellFormed(reg) && comp.model in reg && fuel > 0 && 0 < n <= |objs|
    ensures (forall j | 0 <= j < n :: ChildResolved(reg, cb, fuel, comp, store, objs, post, j)) <==>
      (forall j | 0 <= j < n - 1 :: ChildResolved(reg, cb, fuel, comp, store, objs, post, j))
        && ChildResolved(reg, cb, fuel, comp, store, objs, post, n - 1)
  {
  }

  /** Child `j` of a composition, indexed on its own with the composition's model, resolves. */
  predicate ChildResolved(reg: Registry, cb: Callbacks, fuel: nat, comp: Composition, store: Store,
                          objs: seq<Value>, post: Value, j: nat)
    requires WellFormed(reg) && comp.model in reg && fuel > 0 && j < |objs|
  {
    IndexAll(reg, cb, fuel - 1, reg[comp.model], store, objs[j], PostsaveChild(post, ChildIndex(objs, j))).outcome.Resolved?
  }

  /** The first `n` children resolve exactly when the first `n - 1` do and child `n - 1`, indexed on its own, does. */
  lemma ChildrenResolvedStep(reg: Registry, cb: Callbacks, fuel: nat, comp: Composition, store: Store,
                             objs: seq<Value>, n: nat, post: Value)
    requires WellFormed(reg) && comp.model in reg && fuel > 0 && 0 < n <= |objs|
    ensures IndexChildren(reg, cb, fuel, comp, store, objs, n, post).outcome.Resolved? <==>
      && IndexChildren(reg, cb, fuel, comp, store, objs, n - 1, post).outcome.Resolved?
      && ChildResolved(reg, cb, fuel, comp, store, objs, post, n - 1)
  {
    var child := objs[n - 1];
    IndexAllOutcomeStoreFree(reg, cb, fuel - 1, reg[comp.model],
      IndexChildren(reg, cb, fuel, comp, store, objs, n - 1, post).store, store,
      child, PostsaveChild(post, ChildIndex(objs, n - 1)));
  }

  /** The children of a composition key, as indexAll indexes them. */
  predicate KeyResolved(reg: Registry, cb: Callbacks, fuel: nat, spec: ModelSpec, store: Store, presave: Value, postsave: Value, k: string)
    requires WellFormed(reg) && Closed(reg, spec) && fuel > 0 && k in spec.compositions.vals
  {
    var objects := Member(presave, k);
    var comp := spec.compositions.vals[k];
    !Truthy(objects) || IndexChildren(reg, cb, fuel, comp, store, Wrap(objects), |Wrap(objects)|, Member(postsave, comp.name)).outcome.Resolved?
  }

  /** The children under the listed keys resolve exactly when those of every key resolve. */
  lemma {:induction false} KeysResolveIffEach(reg: Registry, cb: Callbacks, fuel: nat, spec: ModelSpec, store: Store,
                                              presave: Value, postsave: Value, ks: seq<string>)
    requires WellFormed(reg) && Closed(reg, spec) && fuel > 0
    requires forall k | k in ks :: k in spec.compositions.vals
    ensures IndexKeys(reg, cb, fuel, spec, store, presave, postsave, ks).outcome.Resolved? <==>
      forall i | 0 <= i < |ks| :: KeyResolved(reg, cb, fuel, spec, store, presave, postsave, ks[i])
  {
    if ks != [] {
      var init := ks[..|ks| - 1];
      KeysResolveIffEach(reg, cb, fuel, spec, store, presave, postsave, init);
      KeysResolvedStep(reg, cb, fuel, spec, store, presave, postsave, ks);
      KeysResolvedSplit(reg, cb, fuel, spec, store, presave, postsave, ks, init);
    }
  }

  /** Every listed key resolves exactly when all but the last do and the last does. */
  lemma KeysResolvedSplit(reg: Registry, cb: Callbacks, fuel: nat, spec: ModelSpec, store: Store,
                          presave: Value, postsave: Value, ks: seq<string>, init: seq<string>)
    requires WellFormed(reg) && Closed(reg, spec) && fuel > 0 && ks != [] && init == ks[..|ks| - 1]
    requires forall k | k in ks :: k in spec.compositions.vals
    ensures (forall i | 0 <= i < |ks| :: KeyResolved(reg, cb, fuel, spec, store, presave, postsave, ks[i])) <==>
      (forall i | 0 <= i < |init| :: KeyResolved(reg, cb, fuel, spec, store, presave, postsave, init[i]))
        && KeyResolved(reg, cb, fuel, spec, store, presave, postsave, ks[|ks| - 1])
  {
    assert forall i | 0 <= i < |init| :: init[i] == ks[i];
  }

  /** The listed keys resolve exactly when all but the last do and the last key's children, indexed from the start, do. */
  lemma KeysResolvedStep(reg: Registry, cb: Callbacks, fuel: nat, spec: ModelSpec, store: Store,
                         presave: Value, postsave: Value, ks: seq<string>)
    requires WellFormed(reg) && Closed(reg, spec) && fuel > 0 && ks != []
    requires forall k | k in ks :: k in spec.compositions.vals
    ensures IndexKeys(reg, cb, fuel, spec, store, presave, postsave, ks).outcome.Resolved? <==>
      && IndexKeys(reg, cb, fuel, spec, store, presave, postsave, ks[..|ks| - 1]).outcome.Resolved?
      && KeyResolved(reg, cb, fuel, spec, store, presave, postsave, ks[|ks| - 1])
  {
    var init := ks[..|ks| - 1];
    var k := ks[|ks| - 1];
    var objects := Member(presave, k);
    if Truthy(objects) {
      var comp := spec.compositions.vals[k];
      var objs := Wrap(objects);
      IndexChildrenOutcomeStoreFree(reg, cb, fuel, comp,
        IndexKeys(reg, cb, fuel, spec, store, presave, postsave, init).store, store,
        objs, |objs|, Member(postsave, comp.name));
    }
  }

  /** The children under the listed keys resolve only when every child of every key, indexed on its own, resolves. */
  lemma ResolvedKeysNeedEveryChild(reg: Registry, cb: Callbacks, fuel: nat, spec: ModelSpec, store: Store, other: Store,
                                   presave: Value, postsave: Value, k: string, j: nat)
    requires WellFormed(reg) && Closed(reg, spec) && fuel > 0
    requires IndexKeys(reg, cb, fuel, spec, store, presave, postsave, spec.compositions.keys).outcome.Resolved?
    requires k in spec.compositions.vals && Truthy(Member(presave, k)) && j < |Wrap(Member(presave, k))|
    ensures var comp := spec.compositions.vals[k];
      var objs := Wrap(Member(presave, k));
      IndexAll(reg, cb, fuel - 1, reg[comp.model], other, objs[j], PostsaveChild(Member(postsave, comp.name), ChildIndex(objs, j))).outcome.Resolved?
  {
    var keys := spec.compositions.keys;
    KeysResolveIffEach(reg, cb, fuel, spec, store, presave, postsave, keys);
    var i :| 0 <= i < |keys| && keys[i] == k;
    assert KeyResolved(reg, cb, fuel, spec, store, presave, postsave, keys[i]);
    ResolvedKeyNeedsEveryChild(reg, cb, fuel, spec, store, other, presave, postsave, k, j);
  }

  /** A composition key resolves only when every one of its children, indexed on its own, resolves. */
  lemma ResolvedKeyNeedsEveryChild(reg: Registry, cb: Callbacks, fuel: nat, spec: ModelSpec, store: Store, other: Store,
                                   presave: Value, postsave: Value, k: string, j: nat)
    requires WellFormed(reg) && Closed(reg, spec) && fuel > 0
    requires k in spec.compositions.vals && KeyResolved(reg, cb, fuel, spec, store, presave, postsave, k)
    requires Truthy(Member(presave, k)) && j < |Wrap(Member(presave, k))|
    ensures var comp := spec.compositions.vals[k];
      var objs := Wrap(Member(presave, k));
      IndexAll(reg, cb, fuel - 1, reg[comp.model], other, objs[j], PostsaveChild(Member(postsave, comp.name), ChildIndex(objs, j))).outcome.Resolved?
  {
    var comp := spec.compositions.vals[k];
    var objs := Wrap(Member(presave, k));
    ChildrenResolveIffEach(reg, cb, fuel, comp, store, objs, |objs|, Member(postsave, comp.name));
    assert ChildResolved(reg, cb, fuel, comp, store, objs, Member(postsave, comp.name), j);
    IndexAllOutcomeStoreFree(reg, cb, fuel - 1, reg[comp.model], store, other,
      objs[j], PostsaveChild(Member(postsave, comp.name), ChildIndex(objs, j)));
  }

  /** indexAll resolves only when every composed child, indexed with its own model, resolves. */
  lemma ResolvedNeedsEveryChild(reg: Registry, cb: Callbacks, fuel: nat, spec: ModelSpec, store: Store, other: Store,
                                presave: Value, postsave: Value, k: string, j: nat)
    requires WellFormed(reg) && Closed(reg, spec) && fuel > 0
    requires IndexAll(reg, cb, fuel, spec, store, presave, postsave).outcome.Resolved?
    requires k in spec.compositions.vals && Truthy(Member(presave, k)) && j < |Wrap(Member(presave, k))|
    ensures var comp := spec.compositions.vals[k];
      var objs := Wrap(Member(presave, k));
      IndexAll(reg, cb, fuel - 1, reg[comp.model], other, objs[j], PostsaveChild(Member(postsave, comp.name), ChildIndex(objs, j))).outcome.Resolved?
  {
    var own := if Truthy(Member(presave, spec.idKey)) then Written(store, Ok(postsave))
               else IndexObject(cb, spec.indexes, store, postsave);
    assert IndexAll(reg, cb, fuel, spec, store, presave, postsave)
        == IndexKeys(reg, cb, fuel, spec, own.store, presave, postsave, spec.compositions.keys);
    ResolvedKeysNeedEveryChild(reg, cb, fuel, spec, own.store, other, presave, postsave, k, j);
  }

  /**
   * A composed child whose indexing fails keeps the save from succeeding:
   * afterCommit never runs, and unless the object's own indexing already
   * reported an error, the save's callback is never called.
   */
  lemma UnindexedChildLeavesSaveUnanswered(reg: Registry, ext: Ext, cb: Callbacks, fuel: nat, spec: ModelSpec, store: Store,
                                           obj: Props, k: string, j: nat)
    requires WellFormed(reg) && Closed(reg, spec) && fuel > 0
    requires BeforeCommit(reg, ext, fuel, spec, obj).Ok?
    requires var ready := BeforeCommit(reg, ext, fuel, spec, obj).value;
      && Commit(reg, cb, fuel, spec, store, ready).result.Ok?
      && k in spec.compositions.vals && Truthy(Get(ready, k)) && j < |Wrap(Get(ready, k))|
      && var saved := Commit(reg, cb, fuel, spec, store, ready).result.value.saved;
         var comp := spec.compositions.vals[k];
         var objs := Wrap(Get(ready, k));
         !IndexAll(reg, cb, fuel - 1, reg[comp.model], store, objs[j], PostsaveChild(Get(saved, comp.name), ChildIndex(objs, j))).outcome.Resolved?
    ensures var r := SaveModel(reg, ext, cb, fuel, spec, store, obj);
      r.answer.Unanswered? || r.answer.result.Err?
  {
    var ready := BeforeCommit(reg, ext, fuel, spec, obj).value;
    var c := Commit(reg, cb, fuel, spec, store, ready);
    var saved := c.result.value.saved;
    var ix := IndexAll(reg, cb, fuel, spec, c.store, Obj(ready), Obj(saved));
    assert SaveModel(reg, ext, cb, fuel, spec, store, obj).answer == match ix.outcome
      case Refused(e) => Answered(Err(e))
      case Unresolved => Unanswered
      case Resolved => Answered(AfterCommit(reg, cb, fuel, spec, saved));
    if ix.outcome.Resolved? {
      ResolvedNeedsEveryChild(reg, cb, fuel, spec, c.store, store, Obj(ready), Obj(saved), k, j);
      assert false;
    }
  }

  // ---- what afterCommit promises ----

  /**
   * afterCommit of a model without compositions notifies its afterSave
   * listeners and answers with what `compute` makes of the object.
   */
  lemma AfterCommitWithoutCompositions(reg: Registry, cb: Callbacks, fuel: nat, spec: ModelSpec, obj: Props)
    requires WellFormed(reg) && Closed(reg, spec) && fuel > 0
    requires spec.compositions.keys == [] && "afterSave" in spec.events
    ensures AfterCommit(reg, cb, fuel, spec, obj) == cb.compute(spec.modelType, obj)
  {
    assert SortCompositions.SortAll(spec.compositions, spec.compositions.keys, obj) == obj;
    assert TransformComps(spec.compositions, obj, obj, AfterCommitStep(reg, cb, fuel - 1)) == Ok(obj);
  }

  /**
   * A failure in the children's afterCommit never fails the parent's: with a
   * `compute` that answers with its object, afterCommit succeeds whenever the
   * model has an afterSave list, and every property that is neither a
   * composition nor sorted as one comes back as it was.
   */
  lemma AfterCommitKeepsOwnProperties(reg: Registry, cb: Callbacks, fuel: nat, spec: ModelSpec, obj: Props, k: string)
    requires WellFormed(reg) && Closed(reg, spec) && fuel > 0 && "afterSave" in spec.events
    requires forall t, x :: cb.compute(t, x) == Ok(x)
    requires k in obj.vals && k !in spec.compositions.vals
    requires forall j | j in spec.compositions.vals :: spec.compositions.vals[j].name != k
    ensures AfterCommit(reg, cb, fuel, spec, obj).Ok?
    ensures Get(AfterCommit(reg, cb, fuel, spec, obj).value, k) == Get(obj, k)
  {
    var comps := spec.compositions;
    var sorted := SortCompositions.SortAll(comps, comps.keys, obj);
    SortCompositions.SortAllLeavesOthers(comps, comps.keys, obj, k);
    AfterChildrenLeavesOthers(reg, cb, fuel - 1, spec, sorted, k);
  }

  /**
   * When a child's afterCommit fails, what `compute` receives (see
   * AfterCommitComputesAfterChildren) still holds every composed child
   * sorted in place: each child object of an array-valued composition is,
   * in its place, its own sorted tree.
   */
  lemma AfterChildrenFailureKeepsSorted(reg: Registry, cb: Callbacks, fuel: nat, spec: ModelSpec, notified: Props, k: string)
    requires WellFormed(reg) && Closed(reg, spec)
    requires TransformComps(spec.compositions, notified, notified, AfterCommitStep(reg, cb, fuel)).Err?
    requires k in spec.compositions.vals && Get(notified, k).Arr?
    ensures var items := Get(notified, k).items;
      var r := Get(AfterChildren(reg, cb, fuel, spec, notified), k);
      && r.Arr? && |r.items| == |items|
      && forall i | 0 <= i < |items| && items[i].Obj? ::
           r.items[i] == Obj(SortTree(reg, fuel, reg[spec.compositions.vals[k].model], items[i].props))
  {
    SortKeysAt(reg, fuel, spec.compositions, spec.compositions.keys, notified, k);
  }

  /** With afterSave registered, afterCommit answers with `compute` of the sorted object once its children are done. */
  lemma AfterCommitComputesAfterChildren(reg: Registry, cb: Callbacks, fuel: nat, spec: ModelSpec, obj: Props)
    requires WellFormed(reg) && Closed(reg, spec) && fuel > 0 && "afterSave" in spec.events
    ensures AfterCommit(reg, cb, fuel, spec, obj)
      == cb.compute(spec.modelType, AfterChildren(reg, cb, fuel - 1, spec, SortCompositions.SortAll(spec.compositions, spec.compositions.keys, obj)))
  {
  }

  /**
   * The sorts reach every level: in the tree, a composition stored under its
   * own name with an `orderBy` holds its children in `SortArray` order, each
   * of them sorted in turn.
   */
  lemma SortTreeOrdersComposition(reg: Registry, fuel: nat, spec: ModelSpec, obj: Props, k: string)
    requires WellFormed(reg) && Closed(reg, spec) && fuel > 0
    requires forall j | j in spec.compositions.vals :: spec.compositions.vals[j].name == j
    requires k in spec.compositions.vals && spec.compositions.vals[k].orderBy.Some? && Get(obj, k).Arr?
    ensures var c := spec.compositions.vals[k];
      Get(SortTree(reg, fuel, spec, obj), k)
        == Arr(SortItems(reg, fuel - 1, reg[c.model], SortCompositions.SortArray(c.orderBy.value, Get(obj, k).items)))
  {
    var comps := spec.compositions;
    var sorted := SortCompositions.SortAll(comps, comps.keys, obj);
    var c := comps.vals[k];
    SortTreeUnfold(reg, fuel, spec, obj);
    SortCompositions.SortAllAt(comps, comps.keys, obj, k);
    assert Get(sorted, k).items == SortCompositions.SortArray(c.orderBy.value, Get(obj, k).items);
    SortKeysAt(reg, fuel - 1, comps, comps.keys, sorted, k);
  }

  lemma SortTreeUnfold(reg: Registry, fuel: nat, spec: ModelSpec, obj: Props)
    requires WellFormed(reg) && Closed(reg, spec) && fuel > 0
    ensures SortTree(reg, fuel, spec, obj)
      == SortKeys(reg, fuel - 1, spec.compositions, spec.compositions.keys,
                  SortCompositions.SortAll(spec.compositions, spec.compositions.keys, obj))
  {
  }

  lemma AfterChildrenLeavesOthers(reg: Registry, cb: Callbacks, fuel: nat, spec: ModelSpec, notified: Props, k: string)
    requires WellFormed(reg) && Closed(reg, spec)
    requires k in notified.vals && k !in spec.compositions.vals
    ensures Get(AfterChildren(reg, cb, fuel, spec, notified), k) == Get(notified, k)
  {
    var comps := spec.compositions;
    var iter := AfterCommitStep(reg, cb, fuel);
    if TransformComps(comps, notified, notified, iter).Ok? {
      OtherKeysUntouched(comps, notified, notified, iter, k);
    } else {
      SortKeysLeavesOthers(reg, fuel, comps, comps.keys, notified, k);
    }
  }

  /** A key that is not listed keeps its value. */
  lemma {:induction false} SortKeysLeavesOthers(reg: Registry, fuel: nat, comps: CompositionMap, ks: seq<string>, p: Props, k: string)
    requires WellFormed(reg) && forall j | j in ks :: j in comps.vals
    requires k !in ks
    ensures Get(SortKeys(reg, fuel, comps, ks, p), k) == Get(p, k)
  {
    if ks != [] {
      SortKeysLeavesOthers(reg, fuel, comps, ks[..|ks| - 1], p, k);
    }
  }

  /**
   * A listed key holding an array of children holds, afterwards, each child
   * object's sorted tree in the child's place.
   */
  lemma {:induction false} SortKeysAt(reg: Registry, fuel: nat, comps: CompositionMap, ks: seq<string>, p: Props, k: string)
    requires WellFormed(reg) && forall j | j in ks :: j in comps.vals
    requires k in ks && comps.vals[k].model in reg && Get(p, k).Arr?
    requires Distinct(ks)
    ensures Get(SortKeys(reg, fuel, comps, ks, p), k)
      == Arr(SortItems(reg, fuel, reg[comps.vals[k].model], Get(p, k).items))
  {
    var init := ks[..|ks| - 1];
    if ks[|ks| - 1] == k {
      assert k !in init;
      SortKeysLeavesOthers(reg, fuel, comps, init, p, k);
    } else {
      SortKeysAt(reg, fuel, comps, init, p, k);
    }
  }


  /**
   * The discrepancy of afterCommit as written, on the smallest model: a new
   * `user` model without compositions, whose `compute` answers with its
   * object. As intended, afterCommit answers with the object; as written,
   * the afterSave call throws and nothing is answered.
   */
  lemma AfterSaveCallbackMissing(cb: Callbacks, obj: Props)
    requires forall t, x :: cb.compute(t, x) == Ok(x)
    ensures var spec := InitialSpec("id", "user");
      && AfterCommit(map["user" := spec], cb, 1, spec, obj) == Ok(obj)
      && AfterCommitAsWritten(spec, obj) == Err(CallbackMissing)
  {
    var spec := InitialSpec("id", "user");
    var reg := map["user" := spec];
    assert Closed(reg, spec);
    AfterCommitWithoutCompositions(reg, cb, 1, spec, obj);
  }
}

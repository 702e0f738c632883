/**
 * lib/model.js: a model is a type label, a field whitelist, its compositions
 * and one list of listeners per event; `on` registers listeners and the
 * trigger functions run them.
 */
module SeraphModel {
  import opened Wrappers
  import opened Strings
  import opened Js
  import opened Compositions
  import opened Hooks

  /**
   * An index a model declares for the write path (`indexes`, `uniqueIndex`):
   * the index's name, the application functions (conditional, key, value)
   * identified by `id`, and `returnOldOnConflict`.
   */
  datatype IndexSpec = IndexSpec(index: string, id: nat, returnOldOnConflict: bool)

  /** A snapshot of a model's state, read by the save and read paths. */
  datatype ModelSpec = ModelSpec(
    modelType: string,
    idKey: string,
    fields: Value,
    compositions: CompositionMap,
    events: map<string, seq<Hook>>,
    indexes: seq<IndexSpec>,
    uniqueIndex: Option<IndexSpec>)
  {
    function Ctx(): Ctx
    {
      Hooks.Ctx(modelType, idKey, fields)
    }

    /** Every event the constructor creates is present; `on` never removes one. */
    predicate HasAllEvents()
    {
      InitialEvents().Keys <= events.Keys
    }

    /** `triggerTransformEvent(event, object)`; an event the model does not have throws reading `.length`. */
    function TriggerTransformEvent(event: string, ext: Ext, obj: Props): JsResult<Props>
    {
      if event !in events then Err(TypeError("Cannot read property 'length' of undefined"))
      else TransformChain(events[event], Ctx(), ext, obj)
    }

    /** `triggerProgressionEvent(event, object)`. */
    function TriggerProgressionEvent(event: string, ext: Ext, obj: Props): JsResult<Props>
    {
      if event !in events then Err(TypeError("Cannot read property 'length' of undefined"))
      else Progression(events[event], Ctx(), ext, obj)
    }

    /**
     * `triggerEvent(event, object)`: every listener is called and what it
     * returns is ignored; the same object is passed on.
     */
    function TriggerEvent(event: string, obj: Props): (r: JsResult<Props>)
      ensures event in events ==> r == Ok(obj)
    {
      if event !in events then Err(TypeError("Cannot read property 'length' of undefined"))
      else Ok(obj)
    }
  }

  /** The events every model has, each with the listeners the constructor installs. */
  function InitialEvents(): map<string, seq<Hook>>
  {
    map["validate" := [], "beforeSave" := [], "afterSave" := [], "prepare" := [Whitelist], "index" := [IndexByType, IndexById]]
  }

  /** `new Model(db, type)`, with `db.options.id` as the id key. */
  function InitialSpec(idKey: string, modelType: string): ModelSpec
  {
    ModelSpec(modelType, idKey, Arr([]), Empty(), InitialEvents(), [], None)
  }

  /** The START clause naming the model's nodes in the `nodes` index. */
  function CypherStartOf(modelType: string): string
  {
    "node:nodes(type = \"" + modelType + "\")"
  }

  /** The clause names exactly its type: reading between the fixed prefix and suffix gives it back. */
  lemma CypherStartRoundTrip(modelType: string)
    ensures var s := CypherStartOf(modelType);
      && |s| == 19 + |modelType| + 2
      && s[..19] == "node:nodes(type = \""
      && s[19..|s| - 2] == modelType
      && s[|s| - 2..] == "\")"
  {
  }

  /** Two models get the same START clause only when their types are equal. */
  lemma CypherStartInjective(a: string, b: string)
    requires CypherStartOf(a) == CypherStartOf(b)
    ensures a == b
  {
    CypherStartRoundTrip(a);
    CypherStartRoundTrip(b);
  }

  /** A model object: its state is changed in place by `on`, `compose` and assignment to `fields`. */
  class Model {
    var modelType: string
    const idKey: string
    var fields: Value
    var compositions: CompositionMap
    var events: map<string, seq<Hook>>
    var indexes: seq<IndexSpec>
    var uniqueIndex: Option<IndexSpec>

    function Spec(): ModelSpec
      reads this
    {
      ModelSpec(modelType, idKey, fields, compositions, events, indexes, uniqueIndex)
    }

    /**
     * `new Model(db, type)`: no fields and no compositions; the whitelist is
     * the one prepare listener and the two `nodes` index entries the index
     * listeners; validate, beforeSave and afterSave start empty. The write
     * path's `indexes` and `uniqueIndex` are configured outside lib/model.js
     * and start empty here.
     */
    constructor (idKey: string, modelType: string)
      ensures Spec() == InitialSpec(idKey, modelType)
    {
      this.modelType := modelType;
      this.idKey := idKey;
      fields := Arr([]);
      compositions := Empty();
      events := InitialEvents();
      indexes := [];
      uniqueIndex := None;
    }

    /** `on(event, action)`: appends to the event's list; an unknown event is an error and changes nothing. */
    method On(event: string, h: Hook) returns (err: Option<Error>)
      modifies this
      ensures event in old(events) ==> err.None? && Spec() == old(Spec()).(events := old(events)[event := old(events)[event] + [h]])
      ensures event !in old(events) ==> err == Some(Plain("No such event - " + event)) && Spec() == old(Spec())
    {
      if event !in events {
        return Some(Plain("No such event - " + event));
      }
      events := events[event := events[event] + [h]];
      err := None;
    }

    /** `cypherStart()`. */
    function CypherStart(): string
      reads this
    {
      CypherStartOf(modelType)
    }

    /**
     * lib/model.js's own `compose(model, name, relName)`: a descriptor with only
     * the target model and the relationship (`undefined` when not given, as
     * the string it becomes in queries); its name is undefined too.
     */
    method ComposeRel(target: Model, compositionName: string, relName: Value)
      modifies this
      ensures Spec() == old(Spec()).(compositions := old(compositions).Put(compositionName,
        Composition(target.modelType, ToStr(relName), "undefined", false, None, false)))
    {
      compositions := compositions.Put(compositionName,
        Composition(target.modelType, ToStr(relName), "undefined", false, None, false));
    }
  }

  /** A new model prepares an object into itself: the whitelist lets everything through. */
  lemma NewModelPreparesUnchanged(idKey: string, modelType: string, ext: Ext, obj: Props)
    ensures InitialSpec(idKey, modelType).TriggerTransformEvent("prepare", ext, obj) == Ok(obj)
  {
    var spec := InitialSpec(idKey, modelType);
    assert spec.events["prepare"] == [Whitelist];
    assert [Whitelist][..0] == [];
    assert TransformChain([Whitelist], spec.Ctx(), ext, obj) == RunHook(Whitelist, spec.Ctx(), ext, obj);
  }

  /** Once `fields` names properties, prepare keeps exactly those and the id key. */
  lemma WhitelistedModelPrepares(idKey: string, modelType: string, names: seq<string>, ext: Ext, obj: Props)
    requires names != []
    ensures var spec := InitialSpec(idKey, modelType).(fields := Arr(seq(|names|, i requires 0 <= i < |names| => Str(names[i]))));
      var r := spec.TriggerTransformEvent("prepare", ext, obj);
      && r.Ok?
      && (forall k :: k in r.value.vals <==> k in obj.vals && (k in names || k == idKey))
      && (forall k | k in r.value.vals :: r.value.vals[k] == obj.vals[k])
  {
    var spec := InitialSpec(idKey, modelType).(fields := Arr(seq(|names|, i requires 0 <= i < |names| => Str(names[i]))));
    assert spec.events["prepare"] == [Whitelist];
    assert [Whitelist][..0] == [];
    assert TransformChain([Whitelist], spec.Ctx(), ext, obj) == RunHook(Whitelist, spec.Ctx(), ext, obj);
    WhitelistKeepsListed(spec.Ctx(), names, obj);
  }

  /** A listener added with `on` runs after the ones already registered, on what they passed on. */
  lemma OnRunsLast(spec: ModelSpec, event: string, h: Hook, ext: Ext, obj: Props)
    requires event in spec.events
    ensures var after := spec.(events := spec.events[event := spec.events[event] + [h]]);
      after.TriggerTransformEvent(event, ext, obj) ==
        match spec.TriggerTransformEvent(event, ext, obj)
        case Ok(mid) => RunHook(h, spec.Ctx(), ext, mid)
        case Err(e) => Err(e)
  {
    var hooks := spec.events[event] + [h];
    assert hooks[..|hooks| - 1] == spec.events[event];
  }

  // ---- Model.prototype.save ----

  /** The steps of `save`, in the order the waterfall runs them. */
  datatype Stage = Prepare | Validate | BeforeSave | Persist | Index | AfterSave

  /** What `save` produced and which steps it entered. */
  datatype SaveRun = SaveRun(result: JsResult<Props>, stages: seq<Stage>)

  /** The steps a save that succeeds goes through: indexing only for an object that had no id. */
  function FullOrder(isNew: bool): seq<Stage>
  {
    if isNew then [Prepare, Validate, BeforeSave, Persist, Index, AfterSave]
    else [Prepare, Validate, BeforeSave, Persist, AfterSave]
  }

  /**
   * `save(object)` of lib/model.js: prepare, validate, beforeSave, the store
   * (`persist`), index when the object had no id, afterSave. The first error
   * ends the waterfall.
   */
  function Save(spec: ModelSpec, ext: Ext, persist: Props -> JsResult<Props>, obj: Props): SaveRun
  {
    var isNew := !Truthy(Get(obj, spec.idKey));
    match spec.TriggerTransformEvent("prepare", ext, obj)
    case Err(e) => SaveRun(Err(e), [Prepare])
    case Ok(prepared) =>
      match spec.TriggerProgressionEvent("validate", ext, prepared)
      case Err(e) => SaveRun(Err(e), [Prepare, Validate])
      case Ok(valid) =>
        match spec.TriggerEvent("beforeSave", valid)
        case Err(e) => SaveRun(Err(e), [Prepare, Validate, BeforeSave])
        case Ok(ready) =>
          match persist(ready)
          case Err(e) => SaveRun(Err(e), [Prepare, Validate, BeforeSave, Persist])
          case Ok(saved) =>
            var indexed := if isNew then spec.TriggerProgressionEvent("index", ext, saved) else Ok(saved);
            var upToIndex := if isNew then [Prepare, Validate, BeforeSave, Persist, Index] else [Prepare, Validate, BeforeSave, Persist];
            match indexed
            case Err(e) => SaveRun(Err(e), upToIndex)
            case Ok(done) =>
              match spec.TriggerEvent("afterSave", done)
              case Err(e) => SaveRun(Err(e), upToIndex + [AfterSave])
              case Ok(r) => SaveRun(Ok(r), upToIndex + [AfterSave])
  }

  /**
   * The steps always run in the fixed order and stop at the first failure:
   * the steps entered are a prefix of the full order, all of it exactly when
   * the save succeeds; the index step is entered only for an object without an id.
   */
  lemma SaveOrder(spec: ModelSpec, ext: Ext, persist: Props -> JsResult<Props>, obj: Props)
    requires spec.HasAllEvents()
    ensures Save(spec, ext, persist, obj).stages <= FullOrder(!Truthy(Get(obj, spec.idKey)))
    ensures Save(spec, ext, persist, obj).result.Ok? <==>
      Save(spec, ext, persist, obj).stages == FullOrder(!Truthy(Get(obj, spec.idKey)))
    ensures Index in Save(spec, ext, persist, obj).stages ==> !Truthy(Get(obj, spec.idKey))
  {
    var isNew := !Truthy(Get(obj, spec.idKey));
    var full := FullOrder(isNew);
    var run := Save(spec, ext, persist, obj);
    assert "afterSave" in InitialEvents().Keys;
    assert [Prepare] <= full && [Prepare, Validate] <= full && [Prepare, Validate, BeforeSave] <= full;
    assert [Prepare, Validate, BeforeSave, Persist] <= full;
    if isNew {
      assert [Prepare, Validate, BeforeSave, Persist, Index] <= full;
      assert [Prepare, Validate, BeforeSave, Persist, Index] + [AfterSave] == full;
      assert [Prepare, Validate, BeforeSave, Persist, Index] != full;
    } else {
      assert [Prepare, Validate, BeforeSave, Persist] + [AfterSave] == full;
      assert Index !in full;
    }
  }

  /** An object that does not pass validation is never stored. */
  lemma InvalidNeverPersisted(spec: ModelSpec, ext: Ext, persist: Props -> JsResult<Props>, obj: Props)
    requires spec.TriggerTransformEvent("prepare", ext, obj).Ok?
    requires spec.TriggerProgressionEvent("validate", ext, spec.TriggerTransformEvent("prepare", ext, obj).value).Err?
    ensures Persist !in Save(spec, ext, persist, obj).stages
    ensures Save(spec, ext, persist, obj).result.Err?
  {
  }
}

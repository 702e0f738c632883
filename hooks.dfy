/**
 * The listeners a model keeps per event (lib/model.js, lib/schema.js,
 * lib/compose.js) and the three ways lib/model.js runs an event's list:
 * a transform chain, an all-must-pass progression and a notification.
 */
module Hooks {
  import opened Wrappers
  import opened Strings
  import opened Js
  import opened SchemaRules
  import GetId

  /** A registered listener. The built-in ones are spelled out; an application's own are `Listener(id)`. */
  datatype Hook =
    | Whitelist                                     // prepare, installed by the constructor
    | IndexByType                                   // index, installed by the constructor
    | IndexById                                     // index, installed by the constructor
    | CastField(typeName: string, field: string)    // prepare, from a schema `type`
    | DefaultField(value: Value, field: string)     // prepare, from a schema `default`
    | StringField(op: StringOption, field: string)  // prepare, from `trim` / `uppercase` / `lowercase`
    | RequiredField(field: string)                  // validate, from `required`
    | EnumField(values: Value, field: string)       // validate, from `enum`
    | BoundField(kind: BoundKind, limit: Value, field: string)  // validate, from `min` / `max`
    | MatchField(pattern: Value, field: string)     // validate, from `match`
    | TimestampOfComposer(composition: string)      // afterSave, from compose's `updatesTimestamp`
    | TimestampOfComposed(rel: string)              // afterSave, from compose's `updatesTimestamp`
    | Listener(id: nat)

  /**
   * What the listeners depend on outside the model: an application
   * listener's outcome, the Date and Number casts, the regular-expression
   * engine, and the database's `index` call (None when it succeeds).
   */
  datatype Ext = Ext(
    listener: (nat, Props) -> JsResult<Props>,
    otherCast: (string, Value) -> Value,
    regexTest: (string, string) -> bool,
    dbIndex: (string, Props, Value, Value) -> Option<Error>)

  /** What a built-in listener reads from its model: the type, the id key and `fields`. */
  datatype Ctx = Ctx(modelType: string, idKey: string, fields: Value)

  /** The property names `_.pick` receives for `fields.concat([idKey])`. */
  function FieldKeys(fields: seq<Value>): (ks: seq<string>)
    ensures |ks| == |fields|
    ensures forall i | 0 <= i < |fields| :: ks[i] == ToStr(fields[i])
  {
    if fields == [] then [] else [ToStr(fields[0])] + FieldKeys(fields[1..])
  }

  /** The whitelist: with a non-empty `fields` array, keep only those properties and the id. */
  function ApplyWhitelist(ctx: Ctx, obj: Props): Props
  {
    if !ctx.fields.Arr? || |ctx.fields.items| == 0 then obj
    else Pick(obj, FieldKeys(ctx.fields.items + [Str(ctx.idKey)]))
  }

  /** Without a non-empty `fields` array the whitelist lets everything through. */
  lemma WhitelistPassesWithoutFields(ctx: Ctx, obj: Props)
    requires !ctx.fields.Arr? || ctx.fields.items == []
    ensures ApplyWhitelist(ctx, obj) == obj
  {
  }

  /** With field names listed, exactly the listed properties and the id survive, with their values. */
  lemma WhitelistKeepsListed(ctx: Ctx, names: seq<string>, obj: Props)
    requires names != [] && ctx.fields == Arr(seq(|names|, i requires 0 <= i < |names| => Str(names[i])))
    ensures var r := ApplyWhitelist(ctx, obj);
      && (forall k :: k in r.vals <==> k in obj.vals && (k in names || k == ctx.idKey))
      && (forall k | k in r.vals :: r.vals[k] == obj.vals[k])
  {
    var ks := FieldKeys(ctx.fields.items + [Str(ctx.idKey)]);
    assert ks == names + [ctx.idKey];
    PickContents(obj, ks);
  }

  /** `db._getId(object)` as a property value: the id, or null. */
  function IdValue(ctx: Ctx, obj: Props): Value
  {
    match GetId.GetId(ctx.idKey, Obj(obj))
    case Ok(Some(n)) => Num(n)
    case _ => Null
  }

  function Failed(e: Option<Error>, obj: Props): (r: JsResult<Props>)
    ensures r.Ok? <==> e.None?
    ensures r.Ok? ==> r.value == obj
  {
    if e.Some? then Err(e.value) else Ok(obj)
  }

  /**
   * One listener run on `obj`: the object it passes on, or its error. The
   * validate listeners pass the object on unchanged when they accept it.
   */
  function RunHook(h: Hook, ctx: Ctx, ext: Ext, obj: Props): JsResult<Props>
  {
    match h
    case Whitelist => Ok(ApplyWhitelist(ctx, obj))
    case IndexByType => Failed(ext.dbIndex("nodes", obj, Str("type"), Str(ctx.modelType)), obj)
    case IndexById => Failed(ext.dbIndex("nodes", obj, Str(ctx.modelType), IdValue(ctx, obj)), obj)
    case CastField(typeName, field) => Ok(PrepareCast(typeName, field, obj, ext.otherCast))
    case DefaultField(value, field) => Ok(PrepareDefault(value, field, obj))
    case StringField(op, field) => PrepareString(op, field, obj)
    case RequiredField(field) => Failed(ValidateRequired(field, obj), obj)
    case EnumField(values, field) => Failed(ValidateEnum(values, field, obj), obj)
    case BoundField(kind, limit, field) => Failed(ValidateBound(kind, limit, field, obj), obj)
    case MatchField(pattern, field) =>
      if pattern.Regex? then Failed(ValidateMatch(pattern.source, field, obj, ext.regexTest), obj)
      else Err(TypeError("regExp.test is not a function"))
    case TimestampOfComposer(_) => Ok(obj)
    case TimestampOfComposed(_) => Ok(obj)
    case Listener(id) => ext.listener(id, obj)
  }

  // ---- triggerTransformEvent ----

  /**
   * The transform chain: each listener receives what the previous one passed
   * on; the first error ends the chain. (The source seeds the chain with a
   * shallow clone, so the caller's object is not changed.)
   */
  function TransformChain(hooks: seq<Hook>, ctx: Ctx, ext: Ext, obj: Props): JsResult<Props>
  {
    if hooks == [] then Ok(obj)
    else
      var next :- TransformChain(hooks[..|hooks| - 1], ctx, ext, obj);
      RunHook(hooks[|hooks| - 1], ctx, ext, next)
  }

  /** Running two lists one after the other is running their concatenation. */
  lemma {:induction false} TransformChainAppend(a: seq<Hook>, b: seq<Hook>, ctx: Ctx, ext: Ext, obj: Props)
    ensures TransformChain(a + b, ctx, ext, obj) ==
      match TransformChain(a, ctx, ext, obj)
      case Ok(mid) => TransformChain(b, ctx, ext, mid)
      case Err(e) => Err(e)
  {
    if b == [] {
      assert a + b == a;
    } else {
      var init := b[..|b| - 1];
      assert (a + b)[..|a + b| - 1] == a + init;
      TransformChainAppend(a, init, ctx, ext, obj);
    }
  }

  /** A listener that fails stops the chain: the ones after it make no difference. */
  lemma FailureEndsChain(a: seq<Hook>, b: seq<Hook>, ctx: Ctx, ext: Ext, obj: Props)
    requires TransformChain(a, ctx, ext, obj).Err?
    ensures TransformChain(a + b, ctx, ext, obj) == TransformChain(a, ctx, ext, obj)
  {
    TransformChainAppend(a, b, ctx, ext, obj);
  }

  // ---- triggerProgressionEvent ----

  /** The first error among the listeners, each run on the same object, or None. */
  function FirstFailure(hooks: seq<Hook>, ctx: Ctx, ext: Ext, obj: Props): (e: Option<Error>)
  {
    if hooks == [] then None
    else
      var r := RunHook(hooks[0], ctx, ext, obj);
      if r.Err? then Some(r.error) else FirstFailure(hooks[1..], ctx, ext, obj)
  }

  /** The progression: every listener sees the same object, which is passed on unless one reports an error. */
  function Progression(hooks: seq<Hook>, ctx: Ctx, ext: Ext, obj: Props): (r: JsResult<Props>)
    ensures r.Ok? ==> r.value == obj
  {
    Failed(FirstFailure(hooks, ctx, ext, obj), obj)
  }

  /**
   * The progression succeeds exactly when every listener accepts the object,
   * and otherwise reports the error of the first listener that does not.
   */
  lemma {:induction false} ProgressionIffAllPass(hooks: seq<Hook>, ctx: Ctx, ext: Ext, obj: Props)
    ensures Progression(hooks, ctx, ext, obj).Ok? <==>
      forall i | 0 <= i < |hooks| :: RunHook(hooks[i], ctx, ext, obj).Ok?
    ensures Progression(hooks, ctx, ext, obj).Err? ==>
      exists i | 0 <= i < |hooks| ::
        && RunHook(hooks[i], ctx, ext, obj) == Err(Progression(hooks, ctx, ext, obj).error)
        && forall j | 0 <= j < i :: RunHook(hooks[j], ctx, ext, obj).Ok?
  {
    if hooks != [] {
      ProgressionIffAllPass(hooks[1..], ctx, ext, obj);
      if RunHook(hooks[0], ctx, ext, obj).Ok? {
        if Progression(hooks[1..], ctx, ext, obj).Err? {
          var i :| 0 <= i < |hooks[1..]| &&
            RunHook(hooks[1..][i], ctx, ext, obj) == Err(Progression(hooks[1..], ctx, ext, obj).error) &&
            forall j | 0 <= j < i :: RunHook(hooks[1..][j], ctx, ext, obj).Ok?;
          assert RunHook(hooks[i + 1], ctx, ext, obj) == Err(Progression(hooks, ctx, ext, obj).error);
        }
      } else {
        assert RunHook(hooks[0], ctx, ext, obj) == Err(Progression(hooks, ctx, ext, obj).error);
      }
    }
  }
}

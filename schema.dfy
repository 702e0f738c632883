/**
 * lib/schema.js's `parseSchemaType`: compiles one field's schema entry into
 * listeners registered on the model's prepare and validate events.
 */
module Schema {
  import opened Wrappers
  import opened Strings
  import opened Js
  import opened SchemaRules
  import opened Hooks
  import opened SeraphModel

  /**
   * The entry as an options object: a bare string or function `t` stands for
   * `{type: t}`. Only an object has options of its own (the indices an array
   * enumerates name no option, and other values enumerate nothing).
   */
  function Options(schemaType: Value): (o: Props)
    ensures (schemaType.Str? || schemaType.Fun?) ==> o.keys == ["type"] && Get(o, "type") == schemaType
    ensures schemaType.Obj? ==> o == schemaType.props
    ensures !(schemaType.Str? || schemaType.Fun? || schemaType.Obj?) ==> o.keys == []
  {
    if schemaType.Str? || schemaType.Fun? then Empty<Value>().Put("type", schemaType)
    else if schemaType.Obj? then schemaType.props
    else Empty()
  }

  /** A listener registered for an event. */
  datatype Registration = Registration(event: string, hook: Hook)

  /** What one option does: register a listener, nothing, or throw. */
  datatype Step = Register(reg: Registration) | Ignore | Throw(error: Error)

  /**
   * The step for option `option` with value `value`. A type without
   * `toLowerCase` throws; `unique` calls a method the model does not have and
   * throws; an option the compiler does not know is ignored. Flags such as
   * `required` and `trim` register their listener whatever their value.
   */
  function OptionStep(field: string, option: string, value: Value): (s: Step)
    ensures s.Register? ==> s.reg.event in {"prepare", "validate"}
    ensures s.Throw? <==> option == "unique" || (option == "type" && TypeName(value).None?)
  {
    if option == "type" then
      match TypeName(value)
      case Some(t) => Register(Registration("prepare", CastField(t, field)))
      case None => Throw(TypeError("type.toLowerCase is not a function"))
    else if option == "default" then Register(Registration("prepare", DefaultField(value, field)))
    else if option == "trim" then Register(Registration("prepare", StringField(Trim, field)))
    else if option == "uppercase" then Register(Registration("prepare", StringField(Uppercase, field)))
    else if option == "lowercase" then Register(Registration("prepare", StringField(Lowercase, field)))
    else if option == "required" then Register(Registration("validate", RequiredField(field)))
    else if option == "match" then Register(Registration("validate", MatchField(value, field)))
    else if option == "enum" then Register(Registration("validate", EnumField(value, field)))
    else if option == "min" then Register(Registration("validate", BoundField(Min, value, field)))
    else if option == "max" then Register(Registration("validate", BoundField(Max, value, field)))
    else if option == "unique" then Throw(TypeError("model.setUniqueKey is not a function"))
    else Ignore
  }

  /** The registrations made for the listed options, in order, and the error that ended the loop, if any. */
  datatype Compiled = Compiled(regs: seq<Registration>, error: Option<Error>)

  function Compile(field: string, opts: Props, ks: seq<string>): (c: Compiled)
    ensures |c.regs| <= |ks|
    ensures forall r | r in c.regs :: r.event in {"prepare", "validate"}
  {
    if ks == [] then Compiled([], None)
    else
      var prev := Compile(field, opts, ks[..|ks| - 1]);
      if prev.error.Some? then prev
      else
        match OptionStep(field, ks[|ks| - 1], Get(opts, ks[|ks| - 1]))
        case Register(r) => Compiled(prev.regs + [r], None)
        case Ignore => prev
        case Throw(e) => Compiled(prev.regs, Some(e))
  }

  /** The event lists after the registrations, each appended to its event's list. */
  function Registered(events: map<string, seq<Hook>>, regs: seq<Registration>): (r: map<string, seq<Hook>>)
    ensures r.Keys == events.Keys
  {
    if regs == [] then events
    else
      var before := Registered(events, regs[..|regs| - 1]);
      var last := regs[|regs| - 1];
      if last.event in before then before[last.event := before[last.event] + [last.hook]] else before
  }

  /**
   * `parseSchemaType(fieldName, schemaType, model)`: registers, option by
   * option, the listeners the schema entry asks for; an option that throws
   * ends the loop and the registrations made before it stay.
   */
  method ParseSchemaType(fieldName: string, schemaType: Value, model: Model) returns (err: Option<Error>)
    requires "prepare" in model.events && "validate" in model.events
    modifies model
    ensures var opts := Options(schemaType);
      var c := Compile(fieldName, opts, opts.keys);
      && err == c.error
      && model.Spec() == old(model.Spec()).(events := Registered(old(model.events), c.regs))
  {
    var opts := Options(schemaType);
    var ks := opts.keys;
    var i := 0;
    while i < |ks|
      invariant 0 <= i <= |ks|
      invariant Compile(fieldName, opts, ks[..i]).error.None?
      invariant model.Spec() == old(model.Spec()).(events := Registered(old(model.events), Compile(fieldName, opts, ks[..i]).regs))
    {
      CompileStep(fieldName, opts, ks, i);
      var option := ks[i];
      match OptionStep(fieldName, option, Get(opts, option)) {
        case Register(r) =>
          assert r.event in model.events;
          RegisteredStep(old(model.events), Compile(fieldName, opts, ks[..i]).regs, r);
          var e := model.On(r.event, r.hook);
        case Ignore =>
        case Throw(e) =>
          CompileErrorStays(fieldName, opts, ks, i + 1);
          return Some(e);
      }
      i := i + 1;
    }
    assert ks[..i] == ks;
    err := None;
  }

  /** One more option: its step decides what the compiler does next. */
  lemma CompileStep(field: string, opts: Props, ks: seq<string>, i: nat)
    requires i < |ks| && Compile(field, opts, ks[..i]).error.None?
    ensures var prev := Compile(field, opts, ks[..i]);
      Compile(field, opts, ks[..i + 1]) ==
        match OptionStep(field, ks[i], Get(opts, ks[i]))
        case Register(r) => Compiled(prev.regs + [r], None)
        case Ignore => prev
        case Throw(e) => Compiled(prev.regs, Some(e))
  {
    assert ks[..i + 1][..i] == ks[..i];
  }

  /** One more registration for an event that exists appends its listener to that event's list. */
  lemma RegisteredStep(events: map<string, seq<Hook>>, regs: seq<Registration>, r: Registration)
    requires r.event in events
    ensures Registered(events, regs + [r]) == Registered(events, regs)[r.event := Registered(events, regs)[r.event] + [r.hook]]
  {
    assert (regs + [r])[..|regs|] == regs;
  }

  /** Once an option has thrown, the options after it change nothing. */
  lemma {:induction false} CompileErrorStays(field: string, opts: Props, ks: seq<string>, n: nat)
    requires n <= |ks| && Compile(field, opts, ks[..n]).error.Some?
    ensures Compile(field, opts, ks) == Compile(field, opts, ks[..n])
  {
    if n < |ks| {
      assert ks[..|ks| - 1][..n] == ks[..n];
      CompileErrorStays(field, opts, ks[..|ks| - 1], n);
    } else {
      assert ks[..n] == ks;
    }
  }

  // ---- what the compiler promises ----

  /** A bare type name registers exactly one cast, to the lowercased name, on prepare. */
  lemma BareStringType(field: string, name: string)
    ensures var opts := Options(Str(name));
      Compile(field, opts, opts.keys) == Compiled([Registration("prepare", CastField(Lower(name), field))], None)
  {
    var opts := Options(Str(name));
    assert opts.keys[..0] == [];
  }

  /** A constructor (`String`, `Boolean`, …) registers the cast named after it. */
  lemma BareFunctionType(field: string, name: string, rest: string)
    requires '(' !in name
    ensures var opts := Options(Fun("function " + name + "(" + rest));
      Compile(field, opts, opts.keys) == Compiled([Registration("prepare", CastField(Lower(name), field))], None)
  {
    FunctionTypeNameOfNamed(name, rest);
    var opts := Options(Fun("function " + name + "(" + rest));
    assert opts.keys[..0] == [];
  }

  /** A flag option registers its listener whatever its value, so `required: false` still makes the field required. */
  lemma FlagRegistersWhateverItsValue(field: string, value: Value)
    ensures var opts := Options(Obj(Empty<Value>().Put("required", value)));
      Compile(field, opts, opts.keys) == Compiled([Registration("validate", RequiredField(field))], None)
  {
    var opts := Options(Obj(Empty<Value>().Put("required", value)));
    assert opts.keys[..0] == [];
  }

  /** `unique` throws: the listeners of the options before it are registered, none after it. */
  lemma UniqueStopsCompiling(field: string, opts: Props, n: nat)
    requires n < |opts.keys| && opts.keys[n] == "unique"
    requires Compile(field, opts, opts.keys[..n]).error.None?
    ensures Compile(field, opts, opts.keys).error == Some(TypeError("model.setUniqueKey is not a function"))
    ensures Compile(field, opts, opts.keys).regs == Compile(field, opts, opts.keys[..n]).regs
  {
    assert opts.keys[..n + 1][..n] == opts.keys[..n];
    CompileErrorStays(field, opts, opts.keys, n + 1);
  }

  /** Registrations go to the end of their event's list and keep their order. */
  lemma {:induction false} RegisteredAppends(events: map<string, seq<Hook>>, regs: seq<Registration>, e: string)
    requires e in events
    ensures Registered(events, regs)[e] == events[e] + HooksFor(regs, e)
  {
    if regs != [] {
      RegisteredAppends(events, regs[..|regs| - 1], e);
    }
  }

  /** The listeners among the registrations that go to event `e`. */
  function HooksFor(regs: seq<Registration>, e: string): (hs: seq<Hook>)
    ensures |hs| <= |regs|
  {
    if regs == [] then []
    else HooksFor(regs[..|regs| - 1], e) + (if regs[|regs| - 1].event == e then [regs[|regs| - 1].hook] else [])
  }

  /**
   * A new model given a single validate listener: validation fails exactly
   * when that listener reports an error.
   */
  lemma LoneValidatorDecides(idKey: string, modelType: string, h: Hook, ext: Ext, obj: Props)
    ensures var spec := InitialSpec(idKey, modelType);
      var compiled := spec.(events := Registered(spec.events, [Registration("validate", h)]));
      compiled.TriggerProgressionEvent("validate", ext, obj).Err? <==> RunHook(h, spec.Ctx(), ext, obj).Err?
  {
    var spec := InitialSpec(idKey, modelType);
    var reg := Registration("validate", h);
    assert [reg][..0] == [];
    assert spec.events == InitialEvents();
    assert "validate" != "index" && "validate" != "prepare" && "validate" != "afterSave" && "validate" != "beforeSave";
    assert InitialEvents()["validate"] == [];
    assert Registered(spec.events, [reg][..0]) == spec.events;
    assert spec.events["validate"] + [h] == [h];
    assert Registered(spec.events, [reg]) == spec.events["validate" := [h]];
    var compiled := spec.(events := Registered(spec.events, [reg]));
    assert compiled.events["validate"] == [h];
    assert compiled.Ctx() == spec.Ctx();
    assert [h][1..] == [];
    assert FirstFailure([h], spec.Ctx(), ext, obj).Some? <==> RunHook(h, spec.Ctx(), ext, obj).Err?;
  }

  /** The `enum` option on its own registers one validate listener checking the listed values. */
  lemma EnumRegistersOneValidator(field: string, items: seq<Value>)
    ensures var opts := Options(Obj(Empty<Value>().Put("enum", Arr(items))));
      Compile(field, opts, opts.keys) == Compiled([Registration("validate", EnumField(Arr(items), field))], None)
  {
    var opts := Options(Obj(Empty<Value>().Put("enum", Arr(items))));
    assert opts.keys[..0] == [];
  }

  /**
   * End to end: a new model given `{required: …}` for a field rejects an
   * object in validation exactly when that field is null or undefined.
   */
  lemma RequiredSchemaValidates(idKey: string, modelType: string, field: string, flag: Value, ext: Ext, obj: Props)
    ensures var opts := Options(Obj(Empty<Value>().Put("required", flag)));
      var spec := InitialSpec(idKey, modelType);
      var compiled := spec.(events := Registered(spec.events, Compile(field, opts, opts.keys).regs));
      compiled.TriggerProgressionEvent("validate", ext, obj).Err? <==> Nullish(Get(obj, field))
  {
    FlagRegistersWhateverItsValue(field, flag);
    LoneValidatorDecides(idKey, modelType, RequiredField(field), ext, obj);
    var ctx := InitialSpec(idKey, modelType).Ctx();
    assert RunHook(RequiredField(field), ctx, ext, obj) == Failed(ValidateRequired(field, obj), obj);
  }

  /**
   * End to end: with `enum` listing allowed values, validation passes exactly
   * for undefined and for a listed primitive value.
   */
  lemma EnumSchemaValidates(idKey: string, modelType: string, field: string, items: seq<Value>, ext: Ext, obj: Props)
    ensures var opts := Options(Obj(Empty<Value>().Put("enum", Arr(items))));
      var spec := InitialSpec(idKey, modelType);
      var compiled := spec.(events := Registered(spec.events, Compile(field, opts, opts.keys).regs));
      compiled.TriggerProgressionEvent("validate", ext, obj).Ok? <==>
        Get(obj, field) == Undefined || (!IsReference(Get(obj, field)) && Get(obj, field) in items)
  {
    EnumRegistersOneValidator(field, items);
    LoneValidatorDecides(idKey, modelType, EnumField(Arr(items), field), ext, obj);
    var ctx := InitialSpec(idKey, modelType).Ctx();
    assert RunHook(EnumField(Arr(items), field), ctx, ext, obj) == Failed(ValidateEnum(Arr(items), field, obj), obj);
    EnumPassesIffListed(items, field, obj);
  }
}

/**
 * The field rules lib/schema.js registers as hooks: type casts, defaults,
 * string normalisation (prepare), and required / enum / min / max / match
 * checks (validate). Each rule is stated here on a plain object; lib/schema.js
 * wraps it in a listener.
 */
module SchemaRules {
  import opened Wrappers
  import opened Strings
  import opened Js

  // ---- type names ----

  /** The name a constructor contributes as a type: its source text from index 9 up to the first '('. */
  function FunctionTypeName(src: string): string
  {
    Substring(src, 9, IndexOf(src, '('))
  }

  /** "function String() { … }" names the type "String". */
  lemma FunctionTypeNameOfNamed(name: string, rest: string)
    requires '(' !in name
    ensures FunctionTypeName("function " + name + "(" + rest) == name
  {
    var src := "function " + name + "(" + rest;
    assert src[9 + |name|] == '(';
    assert forall i | 0 <= i < 9 :: src[i] != '(';
    assert '(' !in src[..9 + |name|] by {
      forall i | 0 <= i < 9 + |name| ensures src[i] != '(' {
        if i >= 9 { assert src[i] == name[i - 9]; }
      }
    }
    assert '(' in src;
    assert src[..9 + |name| + 1] == src[..9 + |name|] + ['('];
    assert src[9..9 + |name|] == name;
  }

  /**
   * The type name `prepareType` receives, lowercased: a string as given, a
   * function by its name. None when the value has no `toLowerCase`, where
   * the source throws a TypeError.
   */
  function TypeName(t: Value): Option<string>
  {
    match t
    case Str(s) => Some(Lower(s))
    case Fun(src) => Some(Lower(FunctionTypeName(src)))
    case _ => None
  }

  // ---- prepare: casts ----

  /**
   * The value a present field is cast to. Dates and numbers are handed to
   * `other` (the JavaScript Date and Number conversions); a type name the
   * switch does not list yields undefined.
   */
  function Cast(typeName: string, v: Value, other: (string, Value) -> Value): Value
    requires !Nullish(v)
  {
    if typeName == "boolean" then (if v == Str("0") then Bool(false) else Bool(Truthy(v)))
    else if typeName == "array" then (if v.Arr? then v else Arr([v]))
    else if typeName == "string" then Str(ToStr(v))
    else if typeName == "date" || typeName == "number" then other(typeName, v)
    else Undefined
  }

  /** The boolean cast: false exactly for '0' and for falsy values, true otherwise. */
  lemma BooleanCast(v: Value, other: (string, Value) -> Value)
    requires !Nullish(v)
    ensures Cast("boolean", v, other) == Bool(v != Str("0") && Truthy(v))
  {
  }

  /** The array cast keeps arrays and wraps anything else into a one-element array. */
  lemma ArrayCast(v: Value, other: (string, Value) -> Value)
    requires !Nullish(v)
    ensures var r := Cast("array", v, other);
      r.Arr? && (v.Arr? ==> r == v) && (!v.Arr? ==> r.items == [v])
  {
  }

  /** The prepare hook for a typed field: a null or undefined field is left alone. */
  function PrepareCast(typeName: string, field: string, obj: Props, other: (string, Value) -> Value): (r: Props)
    ensures Nullish(Get(obj, field)) ==> r == obj
    ensures forall k | k != field :: Get(r, k) == Get(obj, k)
  {
    var v := Get(obj, field);
    if Nullish(v) then obj else obj.Put(field, Cast(typeName, v, other))
  }

  /** Running a boolean, array or string cast a second time changes nothing. */
  lemma PrepareCastIdempotent(typeName: string, field: string, obj: Props, other: (string, Value) -> Value)
    requires typeName == "boolean" || typeName == "array" || typeName == "string"
    ensures PrepareCast(typeName, field, PrepareCast(typeName, field, obj, other), other)
         == PrepareCast(typeName, field, obj, other)
  {
    var once := PrepareCast(typeName, field, obj, other);
    if !Nullish(Get(obj, field)) {
      var c := Cast(typeName, Get(obj, field), other);
      assert Get(once, field) == c;
      assert !Nullish(c);
      assert Cast(typeName, c, other) == c;
      assert once.Put(field, c) == once;
    }
  }

  // ---- prepare: default ----

  /** The default hook: writes the default only over null or undefined. */
  function PrepareDefault(defaultValue: Value, field: string, obj: Props): (r: Props)
    ensures forall k | k != field :: Get(r, k) == Get(obj, k)
  {
    if Nullish(Get(obj, field)) then obj.Put(field, defaultValue) else obj
  }

  /** A present value is kept; a missing one becomes the default. */
  lemma DefaultOnlyWhenMissing(defaultValue: Value, field: string, obj: Props)
    ensures Get(PrepareDefault(defaultValue, field, obj), field)
         == if Nullish(Get(obj, field)) then defaultValue else Get(obj, field)
  {
  }

  // ---- prepare: trim, uppercase, lowercase ----

  datatype StringOption = Trim | Uppercase | Lowercase

  function ApplyStringOption(op: StringOption, s: string): string
  {
    match op
    case Trim => Strings.Trim(s)
    case Uppercase => Upper(s)
    case Lowercase => Lower(s)
  }

  /**
   * The trim / uppercase / lowercase hook: applies only to a truthy field;
   * a truthy value that is not a string has no such method and throws.
   */
  function PrepareString(op: StringOption, field: string, obj: Props): (r: JsResult<Props>)
    ensures !Truthy(Get(obj, field)) ==> r == Ok(obj)
    ensures r.Err? <==> Truthy(Get(obj, field)) && !Get(obj, field).Str?
    ensures r.Ok? ==> forall k | k != field :: Get(r.value, k) == Get(obj, k)
  {
    var v := Get(obj, field);
    if !Truthy(v) then Ok(obj)
    else if !v.Str? then Err(TypeError("object[fieldName]." + OptionMethod(op) + " is not a function"))
    else Ok(obj.Put(field, Str(ApplyStringOption(op, v.s))))
  }

  function OptionMethod(op: StringOption): string
  {
    match op
    case Trim => "trim"
    case Uppercase => "toUpperCase"
    case Lowercase => "toLowerCase"
  }

  lemma {:induction false} TrimStartOfTrimmedEnd(s: string)
    requires s == [] || !IsSpace(s[0])
    ensures TrimStart(TrimEnd(s)) == TrimEnd(s)
  {
    var t := TrimEnd(s);
    assert t == s[..|t|];
    if t != [] { assert t[0] == s[0]; }
  }

  lemma {:induction false} TrimEndIdempotent(s: string)
    ensures TrimEnd(TrimEnd(s)) == TrimEnd(s)
  {
  }

  lemma TrimIdempotent(s: string)
    ensures Strings.Trim(Strings.Trim(s)) == Strings.Trim(s)
  {
    var a := TrimStart(s);
    TrimStartOfTrimmedEnd(a);
    TrimEndIdempotent(a);
  }

  lemma UpperIdempotent(s: string)
    ensures Upper(Upper(s)) == Upper(s)
  {
    assert forall i | 0 <= i < |s| :: UpperChar(UpperChar(s[i])) == UpperChar(s[i]);
  }

  lemma LowerIdempotent(s: string)
    ensures Lower(Lower(s)) == Lower(s)
  {
    assert forall i | 0 <= i < |s| :: LowerChar(LowerChar(s[i])) == LowerChar(s[i]);
  }

  /** Trimming or changing case twice is the same as doing it once. */
  lemma PrepareStringIdempotent(op: StringOption, field: string, obj: Props)
    requires PrepareString(op, field, obj).Ok?
    ensures PrepareString(op, field, PrepareString(op, field, obj).value) == PrepareString(op, field, obj)
  {
    var once := PrepareString(op, field, obj).value;
    var v := Get(obj, field);
    if Truthy(v) {
      var s := ApplyStringOption(op, v.s);
      match op {
        case Trim => TrimIdempotent(v.s);
        case Uppercase => UpperIdempotent(v.s);
        case Lowercase => LowerIdempotent(v.s);
      }
      assert ApplyStringOption(op, s) == s;
      assert Get(once, field) == Str(s);
      if s != "" {
        assert once.Put(field, Str(s)) == once;
      }
    }
  }

  // ---- validate ----

  /** The `required` check: fails exactly when the field is null or undefined. */
  function ValidateRequired(field: string, obj: Props): (r: Option<Error>)
    ensures r.Some? <==> Nullish(Get(obj, field))
  {
    if Nullish(Get(obj, field)) then Some(Validation(field + " is a required field.")) else None
  }

  /**
   * `values.indexOf(value) !== -1`: strict membership for an array, substring
   * search for a string. Strict equality never finds an object field's value
   * in a list written into the schema: they are different references.
   */
  function IndexOfFinds(values: Value, v: Value): Option<bool>
  {
    match values
    case Arr(items) => Some(!IsReference(v) && v in items)
    case Str(s) => Some(Contains(s, ToStr(v)))
    case _ => None
  }

  /** The `enum` check: undefined passes; otherwise the value must be listed. */
  function ValidateEnum(values: Value, field: string, obj: Props): Option<Error>
  {
    var v := Get(obj, field);
    if v == Undefined then None
    else
      match IndexOfFinds(values, v)
      case Some(true) => None
      case Some(false) => Some(Validation(field + " value is not in the required list"))
      case None => Some(TypeError("values.indexOf is not a function"))
  }

  /** With a list of allowed values, the check passes exactly for undefined and for listed primitive values. */
  lemma EnumPassesIffListed(items: seq<Value>, field: string, obj: Props)
    ensures ValidateEnum(Arr(items), field, obj).None? <==>
      Get(obj, field) == Undefined || (!IsReference(Get(obj, field)) && Get(obj, field) in items)
  {
  }

  datatype BoundKind = Min | Max

  /** The `min` / `max` check: `value >= min`, `value <= max`, as JavaScript compares. */
  function ValidateBound(kind: BoundKind, limit: Value, field: string, obj: Props): Option<Error>
  {
    var v := Get(obj, field);
    match kind
    case Min =>
      if Ge(v, limit) then None
      else Some(Validation(field + ": " + ToStr(v) + " is less than the minimum of " + ToStr(limit)))
    case Max =>
      if Le(v, limit) then None
      else Some(Validation(field + ": " + ToStr(v) + " is greater than the maximum of " + ToStr(limit)))
  }

  /** On numbers both bounds are inclusive: min passes iff value >= min, max iff value <= max. */
  lemma NumericBoundsInclusive(kind: BoundKind, limit: int, field: string, obj: Props)
    requires Get(obj, field).Num?
    ensures var n := Get(obj, field).n;
      ValidateBound(kind, Num(limit), field, obj).None? <==> (if kind == Min then n >= limit else n <= limit)
  {
  }

  /** A field that is missing (undefined) fails every numeric bound: undefined compares as NaN. */
  lemma MissingFieldFailsBounds(kind: BoundKind, limit: int, field: string, obj: Props)
    requires field !in obj.vals
    ensures ValidateBound(kind, Num(limit), field, obj).Some?
  {
  }

  /** The `match` check, with the regular-expression test supplied; the source's null-and-empty guard never holds. */
  function ValidateMatch(source: string, field: string, obj: Props, test: (string, string) -> bool): (r: Option<Error>)
    ensures r.None? <==> test(source, ToStr(Get(obj, field)))
  {
    if test(source, ToStr(Get(obj, field))) then None
    else Some(Validation(field + " value does not match the required pattern"))
  }
}

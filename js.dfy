/**
 * The JavaScript data the library handles: values, plain objects (own
 * enumerable properties in insertion order), the coercions the source relies
 * on (truthiness, `== null`, `String(v)`, `Number(v)`, `<`), the underscore
 * helpers `_.pick` and `_.extend`, and the errors that reach a callback.
 */
module Js {
  import opened Wrappers
  import opened Strings

  predicate Distinct(ks: seq<string>)
  {
    forall i, j | 0 <= i < j < |ks| :: ks[i] != ks[j]
  }

  /** `ks` without `k`, order kept. */
  function Drop(ks: seq<string>, k: string): (r: seq<string>)
    ensures forall x :: x in r <==> x in ks && x != k
    ensures Distinct(ks) ==> Distinct(r)
  {
    if ks == [] then []
    else
      var rest := Drop(ks[1..], k);
      assert Distinct(ks) ==> Distinct(ks[1..]) && ks[0] !in ks[1..];
      if ks[0] == k then rest else [ks[0]] + rest
  }

  /**
   * A string-keyed map that remembers insertion order, as a JavaScript
   * object does for its (non-index) property names.
   */
  datatype OMap<V> = OMap(keys: seq<string>, vals: map<string, V>)
  {
    ghost predicate Valid()
    {
      Distinct(keys) && forall k :: k in vals <==> k in keys
    }

    /** `o[k] = v`: an existing key keeps its place, a new key goes last. */
    function Put(k: string, v: V): (r: OMap<V>)
      ensures r.vals == vals[k := v]
      ensures k in vals ==> r.keys == keys
      ensures k !in vals ==> r.keys == keys + [k]
      ensures Valid() ==> r.Valid()
    {
      if k in vals then OMap(keys, vals[k := v]) else OMap(keys + [k], vals[k := v])
    }

    /** `delete o[k]`. */
    function Remove(k: string): (r: OMap<V>)
      ensures r.vals == vals - {k}
      ensures r.keys == Drop(keys, k)
      ensures Valid() ==> r.Valid()
    {
      OMap(Drop(keys, k), vals - {k})
    }
  }

  function Empty<V>(): (r: OMap<V>)
    ensures r.Valid() && r.keys == [] && r.vals == map[]
  {
    OMap([], map[])
  }

  datatype Value =
    | Undefined
    | Null
    | Bool(b: bool)
    | Num(n: int)
    | Str(s: string)
    | Arr(items: seq<Value>)
    | Obj(props: Props)
    | Regex(source: string)
    | Fun(source: string)

  type Props = OMap<Value>

  /** `o[k]`: undefined when absent. */
  function Get(p: Props, k: string): Value
  {
    if k in p.vals then p.vals[k] else Undefined
  }

  /**
   * `v[k]` for a property name `k`: only plain objects carry named
   * properties here (array indices and `length` are not modelled).
   */
  function Member(v: Value, k: string): Value
  {
    if v.Obj? then Get(v.props, k) else Undefined
  }

  /** `!!v`. */
  predicate Truthy(v: Value)
  {
    match v
    case Undefined => false
    case Null => false
    case Bool(b) => b
    case Num(n) => n != 0
    case Str(s) => s != ""
    case _ => true
  }

  /** `v == null`: undefined or null. */
  predicate Nullish(v: Value)
  {
    v == Undefined || v == Null
  }

  /** `typeof v == 'object'`: null, arrays, plain objects and regular expressions. */
  predicate IsObjectType(v: Value)
  {
    v.Null? || v.Arr? || v.Obj? || v.Regex?
  }

  /**
   * Values `===` compares by identity rather than by contents. The model holds
   * values, not references, so two such values are the same reference only
   * where the model says so explicitly.
   */
  predicate IsReference(v: Value)
  {
    v.Arr? || v.Obj? || v.Regex? || v.Fun?
  }

  /** `String(v)`. */
  function ToStr(v: Value): string
  {
    match v
    case Undefined => "undefined"
    case Null => "null"
    case Bool(b) => if b then "true" else "false"
    case Num(n) => IntString(n)
    case Str(s) => s
    case Arr(items) => Join(ElementStrs(items), ",")
    case Obj(_) => "[object Object]"
    case Regex(source) => "/" + source + "/"
    case Fun(source) => source
  }

  /** How `Array.prototype.join` writes each element: null and undefined as "". */
  function ElementStrs(items: seq<Value>): seq<string>
  {
    if items == [] then []
    else [if Nullish(items[0]) then "" else ToStr(items[0])] + ElementStrs(items[1..])
  }

  /** ToPrimitive with hint "number": objects become their string form. */
  function ToPrimitive(v: Value): Value
  {
    if v.Arr? || v.Obj? || v.Regex? || v.Fun? then Str(ToStr(v)) else v
  }

  /** `Number(s)` for optionally signed decimal integer literals; None stands for NaN. */
  function StringToNumber(s: string): Option<int>
  {
    var t := Trim(s);
    if t == "" then Some(0)
    else
      var negative := t[0] == '-';
      var u := if t[0] == '-' || t[0] == '+' then t[1..] else t;
      if u != "" && AllDigits(u) then
        var d: int := DigitsValue(u);
        Some(if negative then -d else d)
      else None
  }

  /** `Number(v)`; None stands for NaN. */
  function ToNumber(v: Value): Option<int>
  {
    match v
    case Undefined => None
    case Null => Some(0)
    case Bool(b) => Some(if b then 1 else 0)
    case Num(n) => Some(n)
    case Str(s) => StringToNumber(s)
    case _ => StringToNumber(ToStr(v))
  }

  /**
   * The abstract relational comparison `a < b`: Some(answer), or None when a
   * side converts to NaN (every comparison with NaN is false).
   */
  function LessThan(a: Value, b: Value): Option<bool>
  {
    var pa, pb := ToPrimitive(a), ToPrimitive(b);
    if pa.Str? && pb.Str? then Some(LexLess(pa.s, pb.s))
    else
      match (ToNumber(pa), ToNumber(pb))
      case (Some(x), Some(y)) => Some(x < y)
      case _ => None
  }

  /** `a < b` */
  predicate Lt(a: Value, b: Value) { LessThan(a, b) == Some(true) }
  /** `a > b` */
  predicate Gt(a: Value, b: Value) { LessThan(b, a) == Some(true) }
  /** `a >= b` */
  predicate Ge(a: Value, b: Value) { LessThan(a, b) == Some(false) }
  /** `a <= b` */
  predicate Le(a: Value, b: Value) { LessThan(b, a) == Some(false) }

  /** `_.pick(p, ks)`: the listed keys that `p` has, in the order of `ks`. */
  function Pick(p: Props, ks: seq<string>): (r: Props)
    ensures r.Valid()
  {
    if ks == [] then Empty()
    else
      var r := Pick(p, ks[..|ks| - 1]);
      var k := ks[|ks| - 1];
      if k in p.vals then r.Put(k, p.vals[k]) else r
  }

  /** `_.pick` keeps exactly the listed properties, with their values. */
  lemma {:induction false} PickContents(p: Props, ks: seq<string>)
    ensures forall k :: k in Pick(p, ks).vals <==> k in p.vals && k in ks
    ensures forall k | k in Pick(p, ks).vals :: Pick(p, ks).vals[k] == p.vals[k]
  {
    if ks != [] {
      PickContents(p, ks[..|ks| - 1]);
      assert ks == ks[..|ks| - 1] + [ks[|ks| - 1]];
    }
  }

  /** Copies the listed keys of `b` onto `a`, one after the other. */
  function ExtendKeys(a: Props, b: Props, ks: seq<string>): (r: Props)
    ensures a.Valid() ==> r.Valid()
  {
    if ks == [] then a
    else
      var r := ExtendKeys(a, b, ks[..|ks| - 1]);
      var k := ks[|ks| - 1];
      if k in b.vals then r.Put(k, b.vals[k]) else r
  }

  /** `_.extend(a, b)` and `Object.assign(a, b)`: b's own properties copied onto a. */
  function Extend(a: Props, b: Props): (r: Props)
    ensures a.Valid() ==> r.Valid()
  {
    ExtendKeys(a, b, b.keys)
  }

  lemma {:induction false} ExtendKeysContents(a: Props, b: Props, ks: seq<string>)
    requires forall k | k in ks :: k in b.vals
    ensures ExtendKeys(a, b, ks).vals == a.vals + map k | k in ks :: b.vals[k]
  {
    if ks != [] {
      var init := ks[..|ks| - 1];
      ExtendKeysContents(a, b, init);
      assert ks == init + [ks[|ks| - 1]];
    }
  }

  /** After `_.extend(a, b)` every key of b holds b's value and every other key keeps a's. */
  lemma ExtendContents(a: Props, b: Props)
    requires b.Valid()
    ensures Extend(a, b).vals == a.vals + b.vals
  {
    ExtendKeysContents(a, b, b.keys);
    assert (map k | k in b.keys :: b.vals[k]) == b.vals;
  }

  /** The body of a database error message, once `JSON.parse` has been tried on it. */
  datatype DbMessage = NotJson(text: string) | Json(body: Value)

  /** What an error callback receives. */
  datatype Error =
    | Plain(message: string)        // new Error(message)
    | TypeError(message: string)    // thrown by the runtime, e.g. a property read on undefined
    | Validation(message: string)   // a failing validate hook (SeraphError)
    | Db(body: DbMessage)           // reported by the database
    | HookFailed(code: nat)         // passed by a hook registered by the application
    | UnknownModel(modelType: string)   // a composition names a model the registry lacks
    | OutOfFuel                     // the nesting is deeper than the depth bound given

  type JsResult<T> = Result<T, Error>

  /** A plain object that an operation changes in place. */
  class JsObject {
    var props: Props

    constructor (p: Props)
      ensures props == p
    {
      props := p;
    }
  }
}

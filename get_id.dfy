/** lib/get-id.js: the numeric database id of a node object, or of an id given directly. */
module GetId {
  import opened Wrappers
  import opened Strings
  import opened Js

  /**
   * `getId(db, node)`: for an object, the value under the id key, otherwise
   * the input itself, parsed with `parseInt(_, 10)`; NaN becomes null (None).
   * `typeof null` is 'object', so a null input fails on the property read.
   */
  function GetId(idKey: string, node: Value): (r: JsResult<Option<int>>)
    ensures r.Err? <==> node == Null
  {
    if node == Null then Err(TypeError("Cannot read property '" + idKey + "' of null"))
    else
      var id := if IsObjectType(node) then Member(node, idKey) else node;
      Ok(ParseInt(ToStr(id)))
  }

  /** A number is its own id. */
  lemma GetIdOfNumber(idKey: string, n: int)
    ensures GetId(idKey, Num(n)) == Ok(Some(n))
  {
    calc {
      GetId(idKey, Num(n));
    == { assert !IsObjectType(Num(n)); }
      Ok(ParseInt(ToStr(Num(n))));
    == { assert ToStr(Num(n)) == IntString(n) + ""; }
      Ok(ParseInt(IntString(n) + ""));
    == { ParseIntOfDecimal(n, ""); }
      Ok(Some(n));
    }
  }

  /** An object's id is read from its id property, with that property's value parsed like a bare id. */
  lemma GetIdOfObject(idKey: string, p: Props)
    requires !IsObjectType(Get(p, idKey))
    ensures GetId(idKey, Obj(p)) == GetId(idKey, Get(p, idKey))
  {
  }

  /** Leading digits are parsed and what follows them is ignored: '12x' gives 12. */
  lemma GetIdOfLeadingDigits(idKey: string, n: int, tail: string)
    requires tail == [] || !IsDigit(tail[0])
    ensures GetId(idKey, Str(IntString(n) + tail)) == Ok(Some(n))
  {
    var s := IntString(n) + tail;
    calc {
      GetId(idKey, Str(s));
    == { assert !IsObjectType(Str(s)); }
      Ok(ParseInt(ToStr(Str(s))));
    == { assert ToStr(Str(s)) == s; }
      Ok(ParseInt(s));
    == { ParseIntOfDecimal(n, tail); }
      Ok(Some(n));
    }
  }

  /** Text without any digit (undefined, '', 'abc') has no id. */
  lemma GetIdWithoutDigits(idKey: string, v: Value)
    requires v.Undefined? || v.Str? || v.Bool?
    requires forall i | 0 <= i < |ToStr(v)| :: !IsDigit(ToStr(v)[i])
    ensures GetId(idKey, v) == Ok(None)
  {
    var s := ToStr(v);
    ParseIntNoDigits(s);
    assert !IsObjectType(v) && v != Null;
  }

  /** An object without its id property has no id. */
  lemma GetIdOfUnsavedObject(idKey: string, p: Props)
    requires idKey !in p.vals
    ensures GetId(idKey, Obj(p)) == Ok(None)
  {
    GetIdWithoutDigits(idKey, Undefined);
  }
}

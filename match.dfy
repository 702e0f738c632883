/** lib/match.js: Cypher WHERE clauses built from a predicate object. */
module Match {
  import opened Wrappers
  import opened Strings
  import opened Js

  /** The condition for one predicate key: `=~` for a regular expression, `in` for an array, `=` otherwise. */
  function Matcher(varName: string, key: string, v: Value): string
  {
    var op := if v.Regex? then " =~ " else if v.Arr? then " in " else " = ";
    varName + "." + key + op + "{" + varName + "_" + key + "}"
  }

  /** A regular expression becomes the Cypher pattern string with the flags `(?isu)`; other values stay. */
  function Rewritten(v: Value): (r: Value)
    ensures !r.Regex?
    ensures v.Regex? ==> r == Str("(?isu)" + v.source)
    ensures !v.Regex? ==> r == v
  {
    if v.Regex? then Str("(?isu)" + v.source) else v
  }

  /** The matchers for the listed keys, in order. */
  function MatchersOf(varName: string, p: Props, ks: seq<string>): (ms: seq<string>)
    requires forall k | k in ks :: k in p.vals
    ensures |ms| == |ks|
    ensures forall i | 0 <= i < |ks| :: ms[i] == Matcher(varName, ks[i], p.vals[ks[i]])
  {
    if ks == [] then []
    else
      var k := ks[|ks| - 1];
      MatchersOf(varName, p, ks[..|ks| - 1]) + [Matcher(varName, k, p.vals[k])]
  }

  /** The predicate once the listed keys have had their regular expressions replaced, one key after the other. */
  function RewriteKeys(p: Props, ks: seq<string>): (r: Props)
    requires forall k | k in ks :: k in p.vals
    ensures r.keys == p.keys && r.vals.Keys == p.vals.Keys
  {
    if ks == [] then p
    else
      var q := RewriteKeys(p, ks[..|ks| - 1]);
      var k := ks[|ks| - 1];
      if q.vals[k].Regex? then q.Put(k, Rewritten(q.vals[k])) else q
  }

  /**
   * `getMatchers(predicate, {varName})`: one matcher per key of the predicate,
   * in key order; as a side effect every regular expression in the predicate
   * is replaced, in place, by its pattern string.
   */
  method GetMatchers(pred: JsObject, varName: string) returns (matchers: seq<string>)
    requires pred.props.Valid()
    modifies pred
    ensures matchers == MatchersOf(varName, old(pred.props), old(pred.props).keys)
    ensures pred.props == RewriteKeys(old(pred.props), old(pred.props).keys)
  {
    var ks := pred.props.keys;
    ghost var p0 := pred.props;
    matchers := [];
    var i := 0;
    while i < |ks|
      invariant 0 <= i <= |ks|
      invariant pred.props == RewriteKeys(p0, ks[..i])
      invariant matchers == MatchersOf(varName, p0, ks[..i])
    {
      var k := ks[i];
      assert k in p0.vals;
      assert k !in ks[..i];
      assert ks[..i + 1][..i] == ks[..i] && ks[..i + 1][i] == k;
      RewriteKeysOther(p0, ks[..i], k);
      var v := pred.props.vals[k];
      matchers := matchers + [Matcher(varName, k, v)];
      if v.Regex? {
        pred.props := pred.props.Put(k, Rewritten(v));
      }
      i := i + 1;
    }
    assert ks[..i] == ks;
  }

  /** Rewriting some keys leaves a key not among them as it was. */
  lemma {:induction false} RewriteKeysOther(p: Props, ks: seq<string>, k: string)
    requires forall j | j in ks :: j in p.vals
    requires k in p.vals && k !in ks
    ensures RewriteKeys(p, ks).vals[k] == p.vals[k]
  {
    if ks != [] {
      RewriteKeysOther(p, ks[..|ks| - 1], k);
    }
  }

  /** Rewriting distinct keys replaces exactly their values. */
  lemma {:induction false} RewriteKeysContents(p: Props, ks: seq<string>)
    requires forall j | j in ks :: j in p.vals
    requires Distinct(ks)
    ensures forall k | k in p.vals ::
      RewriteKeys(p, ks).vals[k] == if k in ks then Rewritten(p.vals[k]) else p.vals[k]
  {
    if ks != [] {
      var init := ks[..|ks| - 1];
      var last := ks[|ks| - 1];
      assert ks == init + [last];
      assert Distinct(init) && last !in init;
      RewriteKeysContents(p, init);
    }
  }

  /**
   * After `getMatchers` the predicate keeps its keys in order, holds no
   * regular expression any more, and every value is the rewritten old value.
   */
  lemma PredicateAfterGetMatchers(p: Props)
    requires p.Valid()
    ensures var r := RewriteKeys(p, p.keys);
      && r.keys == p.keys
      && (forall k | k in r.vals :: !r.vals[k].Regex? && r.vals[k] == Rewritten(p.vals[k]))
  {
    RewriteKeysContents(p, p.keys);
  }

  /**
   * Each matcher names the parameter `varName_key`, and uses `=~` exactly for
   * the keys whose value was a regular expression; the rewritten predicate
   * then holds that expression's pattern string under the key.
   */
  lemma MatchersAgreeWithPredicate(varName: string, p: Props, i: nat)
    requires p.Valid() && i < |p.keys|
    ensures var k := p.keys[i];
      var m := MatchersOf(varName, p, p.keys)[i];
      var r := RewriteKeys(p, p.keys);
      && m == varName + "." + k + (if p.vals[k].Regex? then " =~ " else if p.vals[k].Arr? then " in " else " = ")
               + "{" + varName + "_" + k + "}"
      && (p.vals[k].Regex? ==> r.vals[k] == Str("(?isu)" + p.vals[k].source))
  {
    PredicateAfterGetMatchers(p);
  }

  /**
   * Because the predicate is changed in place, a second `getMatchers` on the
   * same object no longer matches by regular expression: each such key gets `=`.
   */
  lemma SecondCallMatchesByEquality(varName: string, p: Props, i: nat)
    requires p.Valid() && i < |p.keys| && p.vals[p.keys[i]].Regex?
    ensures var k := p.keys[i];
      MatchersOf(varName, RewriteKeys(p, p.keys), p.keys)[i]
        == varName + "." + k + " = {" + varName + "_" + k + "}"
  {
    PredicateAfterGetMatchers(p);
  }

  /** The keyword a composed condition starts with. */
  const WherePrefix: string := "WHERE "

  /** The connective between matchers: OR when `any` is truthy, AND otherwise. */
  function Connective(any: bool): string
  {
    if any then " OR " else " AND "
  }

  /** `composeWhere(matchers, {any})`: the matchers joined by OR when `any` is truthy, by AND otherwise. */
  function ComposeWhere(matchers: seq<string>, any: bool): string
  {
    WherePrefix + Join(matchers, Connective(any))
  }

  /** Two conditions are joined by the connective `any` selects. */
  lemma ComposeWhereTwo(a: string, b: string, any: bool)
    ensures ComposeWhere([a, b], any) == "WHERE " + a + (if any then " OR " else " AND ") + b
  {
    var sep := if any then " OR " else " AND ";
    assert [a, b][1..] == [b];
    assert Join([a, b], sep) == a + sep + b;
  }

  /**
   * For any list of matchers: the text after "WHERE " holds matcher `i` at
   * its offset, followed by the connective `any` selects unless it is the
   * last, and ends with the last matcher.
   */
  lemma ComposeWhereParts(matchers: seq<string>, any: bool, i: nat)
    requires i < |matchers|
    ensures var w := ComposeWhere(matchers, any);
      var sep := Connective(any);
      var o := |WherePrefix| + JoinOffset(matchers, sep, i);
      && w[..|WherePrefix|] == WherePrefix
      && o + |matchers[i]| <= |w| && w[o..o + |matchers[i]|] == matchers[i]
      && (i < |matchers| - 1 ==> o + |matchers[i]| + |sep| <= |w| && w[o + |matchers[i]|..o + |matchers[i]| + |sep|] == sep)
      && (i == |matchers| - 1 ==> |w| == o + |matchers[i]|)
  {
    PrefixedJoinParts(WherePrefix, matchers, Connective(any), i);
  }

  /** The match condition's properties under the names `relVarName_key`, in its key order. */
  function PrefixKeys(cond: Props, relVarName: string, ks: seq<string>): (r: Props)
    requires forall k | k in ks :: k in cond.vals
    ensures r.Valid()
  {
    if ks == [] then Empty()
    else
      var k := ks[|ks| - 1];
      PrefixKeys(cond, relVarName, ks[..|ks| - 1]).Put(relVarName + "_" + k, cond.vals[k])
  }

  /** `extendPredicate(predicate, matchCondition, relVarName)`; None is an absent (falsy) match condition. */
  function ExtendPredicate(pred: Props, matchCondition: Option<Props>, relVarName: string): Props
    requires matchCondition.Some? ==> matchCondition.value.Valid()
  {
    if matchCondition.None? then pred
    else
      var cond := matchCondition.value;
      Extend(Extend(Empty(), pred), PrefixKeys(cond, relVarName, cond.keys))
  }

  /** Without a match condition the predicate itself is handed back. */
  lemma ExtendPredicateWithoutCondition(pred: Props, relVarName: string)
    ensures ExtendPredicate(pred, None, relVarName) == pred
  {
  }

  lemma {:induction false} PrefixKeysContents(cond: Props, relVarName: string, ks: seq<string>)
    requires forall k | k in ks :: k in cond.vals
    ensures forall k | k in ks :: relVarName + "_" + k in PrefixKeys(cond, relVarName, ks).vals
              && PrefixKeys(cond, relVarName, ks).vals[relVarName + "_" + k] == cond.vals[k]
    ensures forall n | n in PrefixKeys(cond, relVarName, ks).vals ::
              exists k | k in ks :: n == relVarName + "_" + k
  {
    if ks != [] {
      var init := ks[..|ks| - 1];
      var last := ks[|ks| - 1];
      PrefixKeysContents(cond, relVarName, init);
      assert ks == init + [last];
      forall k | k in init
        ensures PrefixKeys(cond, relVarName, ks).vals[relVarName + "_" + k] == cond.vals[k]
      {
        if k != last && relVarName + "_" + k == relVarName + "_" + last {
          PrefixInjective(relVarName + "_", k, last);
        }
      }
    }
  }

  lemma PrefixInjective(pre: string, a: string, b: string)
    requires pre + a == pre + b
    ensures a == b
  {
    assert a == (pre + a)[|pre|..];
    assert b == (pre + b)[|pre|..];
  }

  /**
   * The extended predicate holds each match-condition property under
   * `relVarName_key`, and every other property of the predicate unchanged;
   * an extension name wins over a predicate key with the same name.
   */
  lemma ExtendPredicateContents(pred: Props, cond: Props, relVarName: string)
    requires pred.Valid() && cond.Valid()
    ensures var r := ExtendPredicate(pred, Some(cond), relVarName);
      && (forall k | k in cond.vals :: Get(r, relVarName + "_" + k) == cond.vals[k])
      && (forall n | n in pred.vals && (forall k | k in cond.vals :: n != relVarName + "_" + k) ::
            Get(r, n) == pred.vals[n])
      && (forall n | n in r.vals :: n in pred.vals || exists k | k in cond.vals :: n == relVarName + "_" + k)
  {
    var ext := PrefixKeys(cond, relVarName, cond.keys);
    PrefixKeysContents(cond, relVarName, cond.keys);
    ExtendContents(Empty(), pred);
    ExtendContents(Extend(Empty(), pred), ext);
  }
}

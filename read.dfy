/**
 * lib/read.js: `read`, `readComposition` and `fetchAllCompositedNodes`
 * behind them. The database is given as functions: the traversal query, the
 * lookup of a node in its model's node index, and each model's `compute`.
 */
module Read {
  import opened Wrappers
  import opened Strings
  import opened Js
  import opened Compositions
  import opened TransformComposedNodes
  import opened SeraphModel
  import GetId
  import CompositionRelationCypherList
  import SortCompositions
  import Write

  /** What the read path asks of the outside: the query, the node lookup by type and id, and `compute` by type. */
  datatype Reader = Reader(
    query: (string, Props) -> JsResult<Value>,
    lookup: (string, Value) -> JsResult<Value>,
    compute: (string, Value) -> JsResult<Value>)

  // ---- relationship type → composition name ----

  /** Every listed name is a composition of the map. */
  predicate Listed(comps: CompositionMap, ks: seq<string>)
  {
    forall i | 0 <= i < |ks| :: ks[i] in comps.vals
  }

  /** The relationship type of the `i`th listed composition. */
  function RelAt(comps: CompositionMap, ks: seq<string>, i: nat): string
    requires Listed(comps, ks) && i < |ks|
  {
    comps.vals[ks[i]].rel
  }

  /** `compNamesForRels` after the listed compositions: each relationship type names the last composition using it. */
  function RelNames(comps: CompositionMap, ks: seq<string>): (m: map<string, string>)
    requires Listed(comps, ks)
    ensures forall i | 0 <= i < |ks| :: RelAt(comps, ks, i) in m
  {
    if ks == [] then map[]
    else
      var init := ks[..|ks| - 1];
      assert forall i | 0 <= i < |init| :: RelAt(comps, init, i) == RelAt(comps, ks, i);
      RelNames(comps, init)[RelAt(comps, ks, |ks| - 1) := ks[|ks| - 1]]
  }

  /** The `forEach` that fills `compNamesForRels`. */
  method NamesForRels(comps: CompositionMap) returns (m: map<string, string>)
    requires comps.Valid()
    ensures Listed(comps, comps.keys) && m == RelNames(comps, comps.keys)
  {
    var ks := comps.keys;
    m := map[];
    var i := 0;
    while i < |ks|
      invariant 0 <= i <= |ks|
      invariant Listed(comps, ks[..i]) && m == RelNames(comps, ks[..i])
    {
      assert ks[..i + 1][..i] == ks[..i];
      m := m[comps.vals[ks[i]].rel := ks[i]];
      i := i + 1;
    }
    assert ks[..i] == ks;
  }

  /** The map after one more composition: its type names it, any other type keeps its earlier name. */
  lemma RelNamesSnoc(comps: CompositionMap, ks: seq<string>, r: string)
    requires Listed(comps, ks) && ks != []
    ensures Listed(comps, ks[..|ks| - 1])
    ensures r in RelNames(comps, ks) <==> r == RelAt(comps, ks, |ks| - 1) || r in RelNames(comps, ks[..|ks| - 1])
    ensures r in RelNames(comps, ks) ==>
      RelNames(comps, ks)[r] == if r == RelAt(comps, ks, |ks| - 1) then ks[|ks| - 1] else RelNames(comps, ks[..|ks| - 1])[r]
  {
  }

  /** A composition is the one its relationship type maps back to exactly when no later composition shares that type. */
  lemma {:induction false} RelNamesLastWins(comps: CompositionMap, ks: seq<string>, i: nat)
    requires Listed(comps, ks) && Distinct(ks) && i < |ks|
    ensures RelNames(comps, ks)[RelAt(comps, ks, i)] == ks[i] <==>
      forall j | i < j < |ks| :: RelAt(comps, ks, j) != RelAt(comps, ks, i)
  {
    var n := |ks| - 1;
    var r := RelAt(comps, ks, i);
    if i < n {
      var init := ks[..n];
      RelNamesSnoc(comps, ks, r);
      DistinctPrefix(ks, n);
      assert init[i] == ks[i];
      assert RelAt(comps, init, i) == r;
      RelNamesLastWins(comps, init, i);
      if RelAt(comps, ks, n) == r {
        assert ks[n] != ks[i];
      } else {
        assert forall j | i < j < n :: RelAt(comps, init, j) == RelAt(comps, ks, j);
      }
    }
  }

  /** Every type in the map is the relationship type of a listed composition it names. */
  lemma {:induction false} RelNamesDomain(comps: CompositionMap, ks: seq<string>, r: string)
    requires Listed(comps, ks) && r in RelNames(comps, ks)
    ensures exists i | 0 <= i < |ks| :: RelNames(comps, ks)[r] == ks[i] && RelAt(comps, ks, i) == r
  {
    var n := |ks| - 1;
    RelNamesSnoc(comps, ks, r);
    if r != RelAt(comps, ks, n) {
      var init := ks[..n];
      RelNamesDomain(comps, init, r);
      var i :| 0 <= i < |init| && RelNames(comps, init)[r] == init[i] && RelAt(comps, init, i) == r;
      assert init[i] == ks[i];
    }
  }

  lemma DistinctPrefix(ks: seq<string>, n: nat)
    requires Distinct(ks) && n <= |ks|
    ensures Distinct(ks[..n])
  {
    forall a, b | 0 <= a < b < n ensures ks[..n][a] != ks[..n][b] {
      assert ks[..n][a] == ks[a] && ks[..n][b] == ks[b];
    }
  }

  // ---- folding the rows ----

  /** The composition name a row's relationship type maps back to; a type no composition has gives the key "undefined". */
  function NameOf(names: map<string, string>, rel: Value): string
  {
    if ToStr(rel) in names then names[ToStr(rel)] else "undefined"
  }

  /** `v[k]`: reading a property of null or undefined throws. */
  function Prop(v: Value, k: string): (r: JsResult<Value>)
    ensures r.Err? <==> Nullish(v)
    ensures r.Ok? ==> r.value == Member(v, k)
  {
    if Nullish(v) then Err(TypeError("Cannot read property '" + k + "' of " + (if v.Null? then "null" else "undefined")))
    else Ok(Member(v, k))
  }

  /** The object the rows are folded into: each row's nodes under its composition name, a later row winning. */
  function Grouped(names: map<string, string>, rows: seq<Value>): (r: JsResult<Props>)
    ensures r.Ok? ==> r.value.Valid()
  {
    if rows == [] then Ok(Empty())
    else
      var prev :- Grouped(names, rows[..|rows| - 1]);
      var row := rows[|rows| - 1];
      var rel :- Prop(row, "rel");
      Ok(prev.Put(NameOf(names, rel), Member(row, "nodes")))
  }

  /** Once a row has thrown, the rows after it change nothing. */
  lemma {:induction false} GroupedErrorStays(names: map<string, string>, rows: seq<Value>, n: nat)
    requires n <= |rows| && Grouped(names, rows[..n]).Err?
    ensures Grouped(names, rows) == Grouped(names, rows[..n])
  {
    if n < |rows| {
      assert rows[..|rows| - 1][..n] == rows[..n];
      GroupedErrorStays(names, rows[..|rows| - 1], n);
    } else {
      assert rows[..n] == rows;
    }
  }

  /** The fold fails after the last row exactly when it failed before it or that row is nullish. */
  lemma GroupedFailsStep(names: map<string, string>, rows: seq<Value>)
    requires rows != []
    ensures Grouped(names, rows).Err? <==> Grouped(names, rows[..|rows| - 1]).Err? || Nullish(rows[|rows| - 1])
  {
  }

  /** Folding fails exactly when a row is null or undefined. */
  lemma {:induction false} GroupedFailsOnNullishRow(names: map<string, string>, rows: seq<Value>)
    ensures Grouped(names, rows).Err? <==> exists i | 0 <= i < |rows| :: Nullish(rows[i])
  {
    if rows != [] {
      var n := |rows| - 1;
      calc <==> {
        Grouped(names, rows).Err?;
        { GroupedFailsStep(names, rows); }
        Grouped(names, rows[..n]).Err? || Nullish(rows[n]);
        { GroupedFailsOnNullishRow(names, rows[..n]); }
        (exists i | 0 <= i < n :: Nullish(rows[..n][i])) || Nullish(rows[n]);
        { NullishSnoc(rows); }
        exists i | 0 <= i < |rows| :: Nullish(rows[i]);
      }
    }
  }

  /** Some row is nullish exactly when one before the last is, or the last is. */
  lemma NullishSnoc(rows: seq<Value>)
    requires rows != []
    ensures var n := |rows| - 1;
      (exists i | 0 <= i < |rows| :: Nullish(rows[i])) <==> (exists i | 0 <= i < n :: Nullish(rows[..n][i])) || Nullish(rows[n])
  {
    var n := |rows| - 1;
    if exists i | 0 <= i < n :: Nullish(rows[..n][i]) {
      var i :| 0 <= i < n && Nullish(rows[..n][i]);
      assert rows[..n][i] == rows[i];
    }
    if exists i | 0 <= i < |rows| :: Nullish(rows[i]) {
      var i :| 0 <= i < |rows| && Nullish(rows[i]);
      if i < n {
        assert rows[..n][i] == rows[i];
      }
    }
  }

  /** The composition name a non-nullish row goes under. */
  function RowName(names: map<string, string>, row: Value): string
  {
    NameOf(names, Member(row, "rel"))
  }

  /** One more row folded in: a nullish row throws, any other puts its nodes under its composition name. */
  lemma GroupedSnoc(names: map<string, string>, rows: seq<Value>, i: nat)
    requires i < |rows|
    ensures Grouped(names, rows[..i + 1]) ==
      if Grouped(names, rows[..i]).Err? then Grouped(names, rows[..i])
      else if Nullish(rows[i]) then Err(Prop(rows[i], "rel").error)
      else Ok(Grouped(names, rows[..i]).value.Put(RowName(names, rows[i]), Member(rows[i], "nodes")))
  {
    assert rows[..i + 1][..i] == rows[..i];
    assert rows[..i + 1][i] == rows[i];
  }

  /** A non-nullish row after rows that folded puts its nodes under its name. */
  lemma GroupedPutsRow(names: map<string, string>, rows: seq<Value>, i: nat)
    requires i < |rows| && Grouped(names, rows[..i]).Ok? && !Nullish(rows[i])
    ensures Grouped(names, rows[..i + 1]) == Ok(Grouped(names, rows[..i]).value.Put(RowName(names, rows[i]), Member(rows[i], "nodes")))
  {
    GroupedSnoc(names, rows, i);
  }

  /** A nullish row after rows that folded makes the whole fold throw on it. */
  lemma GroupedStopsAtNullish(names: map<string, string>, rows: seq<Value>, i: nat)
    requires i < |rows| && Grouped(names, rows[..i]).Ok? && Nullish(rows[i])
    ensures Grouped(names, rows) == Err(Prop(rows[i], "rel").error)
  {
    GroupedSnoc(names, rows, i);
    GroupedErrorStays(names, rows, i + 1);
  }

  /** A fold that succeeded: the rows before the last folded, and the last row put its nodes under its name. */
  lemma GroupedOkStep(names: map<string, string>, rows: seq<Value>)
    requires rows != [] && Grouped(names, rows).Ok?
    ensures var n := |rows| - 1;
      && Grouped(names, rows[..n]).Ok? && !Nullish(rows[n])
      && Grouped(names, rows).value == Grouped(names, rows[..n]).value.Put(RowName(names, rows[n]), Member(rows[n], "nodes"))
  {
    var n := |rows| - 1;
    GroupedSnoc(names, rows, n);
    assert rows[..n + 1] == rows;
  }

  /** The `forEach` over the query's rows (a result that is not an array is taken as a single row, by `Wrap`). */
  method GroupRows(names: map<string, string>, rows: seq<Value>) returns (r: JsResult<Props>)
    ensures r == Grouped(names, rows)
  {
    var comps: Props := Empty();
    var i := 0;
    while i < |rows|
      invariant 0 <= i <= |rows|
      invariant Grouped(names, rows[..i]) == Ok(comps)
    {
      var row := rows[i];
      if Nullish(row) {
        r := Err(Prop(row, "rel").error);
        GroupedStopsAtNullish(names, rows, i);
        return;
      }
      GroupedPutsRow(names, rows, i);
      comps := comps.Put(RowName(names, row), Member(row, "nodes"));
      i := i + 1;
    }
    assert rows[..i] == rows;
    r := Ok(comps);
  }

  /** Under the name of a row stand the nodes of that row when no later row maps to the same name. */
  lemma {:induction false} GroupedLastRowWins(names: map<string, string>, rows: seq<Value>, i: nat)
    requires Grouped(names, rows).Ok? && i < |rows|
    requires forall j | i < j < |rows| :: RowName(names, rows[j]) != RowName(names, rows[i])
    ensures Get(Grouped(names, rows).value, RowName(names, rows[i])) == Member(rows[i], "nodes")
    decreases |rows|, 1
  {
    GetGroupedStep(names, rows, RowName(names, rows[i]));
    if i < |rows| - 1 {
      LastRowWinsBefore(names, rows, i);
    }
  }

  /** Reading a key of the fold: the last row's nodes when the key is its name, otherwise what the rows before it left there. */
  lemma GetGroupedStep(names: map<string, string>, rows: seq<Value>, k: string)
    requires rows != [] && Grouped(names, rows).Ok?
    ensures var n := |rows| - 1;
      && Grouped(names, rows[..n]).Ok?
      && Get(Grouped(names, rows).value, k) ==
           if RowName(names, rows[n]) == k then Member(rows[n], "nodes") else Get(Grouped(names, rows[..n]).value, k)
  {
    var n := |rows| - 1;
    GroupedOkStep(names, rows);
    GetAfterPut(Grouped(names, rows[..n]).value, RowName(names, rows[n]), Member(rows[n], "nodes"), k);
  }

  /** The recursive step of `GroupedLastRowWins`: a row before the last wins in the fold of the rows before the last. */
  lemma {:induction false} LastRowWinsBefore(names: map<string, string>, rows: seq<Value>, i: nat)
    requires i < |rows| - 1 && Grouped(names, rows[..|rows| - 1]).Ok?
    requires forall j | i < j < |rows| :: RowName(names, rows[j]) != RowName(names, rows[i])
    ensures Get(Grouped(names, rows[..|rows| - 1]).value, RowName(names, rows[i])) == Member(rows[i], "nodes")
    decreases |rows|, 0
  {
    var init := rows[..|rows| - 1];
    assert init[i] == rows[i];
    forall j | i < j < |init| ensures RowName(names, init[j]) != RowName(names, init[i]) {
      assert init[j] == rows[j];
    }
    GroupedLastRowWins(names, init, i);
  }

  lemma GetAfterPut(p: Props, k: string, v: Value, k2: string)
    ensures Get(p.Put(k, v), k2) == if k == k2 then v else Get(p, k2)
  {
  }

  /** Every row's name is a key of the folded object. */
  lemma GroupedHasRowNames(names: map<string, string>, rows: seq<Value>, j: nat)
    requires Grouped(names, rows).Ok? && j < |rows|
    ensures RowName(names, rows[j]) in Grouped(names, rows).value.vals
  {
    assert rows[..|rows|] == rows;
    PrefixHasRowName(names, rows, |rows|, j);
  }

  /** The fold of the first `m` rows has the name of each of those rows as a key. */
  lemma {:induction false} PrefixHasRowName(names: map<string, string>, rows: seq<Value>, m: nat, j: nat)
    requires j < m <= |rows| && Grouped(names, rows[..m]).Ok?
    ensures RowName(names, rows[j]) in Grouped(names, rows[..m]).value.vals
  {
    GroupedSnoc(names, rows, m - 1);
    if j < m - 1 {
      PrefixHasRowName(names, rows, m - 1, j);
    }
  }

  /** The fold's keys: the last row's name and the keys the rows before it left. */
  lemma KeysOfGroupedStep(names: map<string, string>, rows: seq<Value>, k: string)
    requires rows != [] && Grouped(names, rows).Ok?
    ensures var n := |rows| - 1;
      && Grouped(names, rows[..n]).Ok?
      && (k in Grouped(names, rows).value.vals <==> k == RowName(names, rows[n]) || k in Grouped(names, rows[..n]).value.vals)
  {
    GroupedOkStep(names, rows);
  }

  /** The folded object has no key but the rows' names. */
  lemma {:induction false} GroupedOnlyRowNames(names: map<string, string>, rows: seq<Value>, k: string)
    requires Grouped(names, rows).Ok? && k in Grouped(names, rows).value.vals
    ensures exists j | 0 <= j < |rows| :: RowName(names, rows[j]) == k
  {
    var n := |rows| - 1;
    KeysOfGroupedStep(names, rows, k);
    if k != RowName(names, rows[n]) {
      GroupedOnlyRowNames(names, rows[..n], k);
      var j :| 0 <= j < n && RowName(names, rows[..n][j]) == k;
      assert rows[..n][j] == rows[j];
    }
  }

  // ---- fetchAllCompositedNodes ----

  /** The traversal query for a `|`-list of relationship types: one row per type, with the nodes it reaches. */
  function FetchCypher(rels: string): string
  {
    "START root = node({root}) MATCH root-[r:" + rels + "]->(node) RETURN type(r) as rel, collect(node) as nodes"
  }

  /** An id as a query parameter: the number, or null. */
  function IdOf(id: Option<int>): Value
  {
    match id
    case Some(n) => Num(n)
    case None => Null
  }

  /** The rows of the traversal from `root` over the given compositions, folded by composition name. */
  function FetchedGroups(rd: Reader, idKey: string, root: Value, comps: CompositionMap): JsResult<Props>
    requires comps.Valid()
  {
    var id :- GetId.GetId(idKey, root);
    var rels := CompositionRelationCypherList.CypherComposedRelationList(comps);
    var results :- rd.query(FetchCypher(rels), Empty<Value>().Put("root", IdOf(id)));
    Grouped(RelNames(comps, comps.keys), Wrap(results))
  }

  /** The iterator `fetchAllCompositedNodes` hands to transformComposedNodes: the child's own compositions, then its model's `compute`. */
  function FetchStep(reg: Write.Registry, rd: Reader, fuel: nat): Iterator
    requires Write.WellFormed(reg)
    decreases fuel, 1
  {
    (c: Composition, v: Value, i: int) =>
      if c.model !in reg then Err(UnknownModel(c.model))
      else if !v.Obj? then Err(Write.NotAnObject)
      else
        var child := reg[c.model];
        match FetchAll(reg, rd, fuel, child, v, child.compositions)
        case Err(e) => Err(e)
        case Ok(comps) => rd.compute(child.modelType, Obj(Extend(v.props, comps)))
  }

  /**
   * `fetchAllCompositedNodes.call(spec, db, root, comps)`: nothing is asked
   * of the database when there are no compositions. Otherwise the rows of
   * the traversal are folded by composition name, every composed child is
   * expanded with its own model's compositions and computed, the results
   * are collapsed by cardinality and the arrays sorted. `fuel` bounds the
   * nesting depth.
   */
  function FetchAll(reg: Write.Registry, rd: Reader, fuel: nat, spec: ModelSpec, root: Value, comps: CompositionMap): JsResult<Props>
    requires Write.WellFormed(reg) && Write.Closed(reg, spec) && comps.Valid()
    decreases fuel, 0
  {
    if comps.keys == [] then Ok(Empty())
    else if fuel == 0 then Err(OutOfFuel)
    else
      var grouped :- FetchedGroups(rd, spec.idKey, root, comps);
      var t :- TransformComps(spec.compositions, grouped, grouped, FetchStep(reg, rd, fuel - 1));
      Ok(SortCompositions.SortAll(spec.compositions, spec.compositions.keys, t))
  }

  /** Without compositions the database is not asked anything: the result is `{}` whatever it would answer. */
  lemma FetchWithoutCompositions(reg: Write.Registry, rd: Reader, other: Reader, fuel: nat, spec: ModelSpec, root: Value, comps: CompositionMap)
    requires Write.WellFormed(reg) && Write.Closed(reg, spec) && comps.Valid() && comps.keys == []
    ensures FetchAll(reg, rd, fuel, spec, root, comps) == FetchAll(reg, other, fuel, spec, root, comps) == Ok(Empty())
  {
  }

  /** Sorting keeps an array an array of the same length. */
  lemma SortKeepsArrayLength(comps: CompositionMap, p: Props, k: string)
    requires comps.Valid() && Get(p, k).Arr?
    ensures var v := Get(SortCompositions.SortAll(comps, comps.keys, p), k);
      v.Arr? && |v.items| == |Get(p, k).items|
  {
    SortCompositions.SortAllOnlyReorders(comps, comps.keys, p);
    var s := SortCompositions.SortAll(comps, comps.keys, p);
    assert k in p.vals;
    if s.vals[k] != p.vals[k] {
      assert |multiset(s.vals[k].items)| == |multiset(p.vals[k].items)|;
    }
  }

  /** The transformed value of a `many` composition, or of several children, is an array with one result per child. */
  lemma TransformedCardinality(comps: CompositionMap, source: Props, iter: Iterator, k: string)
    requires comps.Valid() && k in comps.vals && Truthy(Get(source, k))
    requires TransformComps(comps, source, source, iter).Ok?
    ensures var n := |Wrap(Get(source, k))|;
      var v := Get(TransformComps(comps, source, source, iter).value, k);
      comps.vals[k].many || n != 1 ==> v.Arr? && |v.items| == n
  {
    CompositionKeyResult(comps, source, source, iter, k);
  }

  /**
   * The read side of the cardinality rule: the nodes of a `many`
   * composition, or several nodes of any composition, come back as an array
   * with one entry per node.
   */
  lemma FetchedCardinality(reg: Write.Registry, rd: Reader, fuel: nat, spec: ModelSpec, root: Value, comps: CompositionMap, k: string)
    requires Write.WellFormed(reg) && Write.Closed(reg, spec) && comps.Valid() && comps.keys != []
    requires FetchAll(reg, rd, fuel, spec, root, comps).Ok? && FetchedGroups(rd, spec.idKey, root, comps).Ok?
    requires k in spec.compositions.vals && Truthy(Get(FetchedGroups(rd, spec.idKey, root, comps).value, k))
    ensures var n := |Wrap(Get(FetchedGroups(rd, spec.idKey, root, comps).value, k))|;
      var v := Get(FetchAll(reg, rd, fuel, spec, root, comps).value, k);
      spec.compositions.vals[k].many || n != 1 ==> v.Arr? && |v.items| == n
  {
    var grouped := FetchedGroups(rd, spec.idKey, root, comps).value;
    var iter := FetchStep(reg, rd, fuel - 1);
    var t := TransformComps(spec.compositions, grouped, grouped, iter);
    assert FetchAll(reg, rd, fuel, spec, root, comps) == Ok(SortCompositions.SortAll(spec.compositions, spec.compositions.keys, t.value));
    TransformedCardinality(spec.compositions, grouped, iter, k);
    var n := |Wrap(Get(grouped, k))|;
    if spec.compositions.vals[k].many || n != 1 {
      SortKeepsArrayLength(spec.compositions, t.value, k);
    }
  }

  // ---- read errors ----

  /** How `read` answers: the computed object, `false` for a node that does not exist, or an error. */
  datatype ReadAnswer = Found(value: Value) | Absent | Failed(error: Error)

  /** `v[0]`. */
  function First(v: Value): JsResult<Value>
  {
    if Nullish(v) then Err(TypeError("Cannot read property '0' of " + ToStr(v)))
    else if v.Arr? then Ok(if |v.items| > 0 then v.items[0] else Undefined)
    else if v.Str? then Ok(if |v.s| > 0 then Str([v.s[0]]) else Undefined)
    else Ok(Member(v, "0"))
  }

  /** `v.match(/pattern/ig)` as a condition; only a string has `match`. */
  function MatchesIgnoringCase(v: Value, pattern: string): JsResult<bool>
  {
    if v.Str? then Ok(ContainsIgnoringCase(v.s, pattern))
    else if Nullish(v) then Err(TypeError("Cannot read property 'match' of " + ToStr(v)))
    else Err(TypeError("match is not a function"))
  }

  /** The first test: an EntityNotFoundException caused by a NotFoundException raised in getNodeById. */
  function NodeMissingTest(body: Value): JsResult<bool>
  {
    var exception :- Prop(body, "exception");
    if exception != Str("EntityNotFoundException") then Ok(false)
    else
      var cause := Member(body, "cause");
      var causeException :- Prop(cause, "exception");
      if causeException != Str("NotFoundException") then Ok(false)
      else
        var stack := Member(cause, "stacktrace");
        var top :- First(stack);
        MatchesIgnoringCase(top, "getNodeById")
  }

  /** The second test: a NotFoundException raised in getIndexedNodes. */
  function IndexMissingTest(body: Value): JsResult<bool>
  {
    var exception :- Prop(body, "exception");
    if exception != Str("NotFoundException") then Ok(false)
    else
      var stack := Member(body, "stacktrace");
      var top :- First(stack);
      MatchesIgnoringCase(top, "getIndexedNodes")
  }

  /**
   * What `read` makes of an error: a database report that parses as JSON
   * and says the node or the nodes index does not exist reads as `false`;
   * a property read the tests make on a report of another shape throws; any
   * other error is passed on unchanged.
   */
  function ClassifyReadError(e: Error): (r: ReadAnswer)
    ensures !r.Found?
    ensures !(e.Db? && e.body.Json?) ==> r == Failed(e)
  {
    if !(e.Db? && e.body.Json?) then Failed(e)
    else
      match NodeMissingTest(e.body.body)
      case Err(thrown) => Failed(thrown)
      case Ok(true) => Absent
      case Ok(false) =>
        match IndexMissingTest(e.body.body)
        case Err(thrown) => Failed(thrown)
        case Ok(true) => Absent
        case Ok(false) => Failed(e)
  }

  /** The top of a stack trace, when it is a string mentioning `name` in any case. */
  predicate StackMentions(stack: Value, name: string)
  {
    First(stack).Ok? && First(stack).value.Str? && ContainsIgnoringCase(First(stack).value.s, name)
  }

  /** The report of a node that does not exist. */
  predicate ReportsMissingNode(body: Value)
  {
    && Member(body, "exception") == Str("EntityNotFoundException")
    && Member(Member(body, "cause"), "exception") == Str("NotFoundException")
    && StackMentions(Member(Member(body, "cause"), "stacktrace"), "getNodeById")
  }

  /** The report of a nodes index that does not exist. */
  predicate ReportsMissingIndex(body: Value)
  {
    && Member(body, "exception") == Str("NotFoundException")
    && StackMentions(Member(body, "stacktrace"), "getIndexedNodes")
  }

  /** A database report reads as `false` exactly when it reports a missing node or a missing nodes index. */
  lemma AbsentIffReportsMissing(body: Value)
    ensures ClassifyReadError(Db(Json(body))) == Absent <==> ReportsMissingNode(body) || ReportsMissingIndex(body)
  {
    if ReportsMissingNode(body) {
      assert Prop(body, "exception") == Ok(Str("EntityNotFoundException"));
      assert NodeMissingTest(body) == Ok(true);
    } else if ReportsMissingIndex(body) {
      assert Prop(body, "exception") == Ok(Str("NotFoundException"));
      assert IndexMissingTest(body) == Ok(true);
    }
  }

  /** A not-found report without a cause makes the test itself throw: `read` fails with that TypeError. */
  lemma MissingCauseThrows(body: Value)
    requires Member(body, "exception") == Str("EntityNotFoundException") && Nullish(Member(body, "cause"))
    ensures ClassifyReadError(Db(Json(body))).Failed? && ClassifyReadError(Db(Json(body))).error.TypeError?
  {
    assert Prop(body, "exception") == Ok(Str("EntityNotFoundException"));
  }

  // ---- read and readComposition ----

  /** `_.extend(node, comps)` for the node the lookup returned. */
  function ExtendNode(node: Value, comps: Props): Value
  {
    if node.Obj? then Obj(Extend(node.props, comps)) else node
  }

  /**
   * `read(idOrObj)`: the node is looked up by type and id while its
   * compositions are fetched; an error of either is classified (the
   * lookup's first), and otherwise the node extended with its compositions
   * goes through `compute`.
   */
  function ReadNode(reg: Write.Registry, rd: Reader, fuel: nat, spec: ModelSpec, idOrObj: Value): (r: ReadAnswer)
    requires Write.WellFormed(reg) && Write.Closed(reg, spec)
    ensures idOrObj == Null ==> r.Failed?
  {
    match GetId.GetId(spec.idKey, idOrObj)
    case Err(e) => Failed(e)
    case Ok(id) =>
      var node := rd.lookup(spec.modelType, IdOf(id));
      var comps := FetchAll(reg, rd, fuel, spec, IdOf(id), spec.compositions);
      if node.Err? then ClassifyReadError(node.error)
      else if comps.Err? then ClassifyReadError(comps.error)
      else
        match rd.compute(spec.modelType, ExtendNode(node.value, comps.value))
        case Ok(v) => Found(v)
        case Err(e) => Failed(e)
  }

  /** A node the database reports missing reads as `false`, whatever its compositions gave. */
  lemma MissingNodeReadsAbsent(reg: Write.Registry, rd: Reader, fuel: nat, spec: ModelSpec, idOrObj: Value, body: Value)
    requires Write.WellFormed(reg) && Write.Closed(reg, spec) && idOrObj != Null
    requires rd.lookup(spec.modelType, IdOf(GetId.GetId(spec.idKey, idOrObj).value)) == Err(Db(Json(body)))
    requires ReportsMissingNode(body) || ReportsMissingIndex(body)
    ensures ReadNode(reg, rd, fuel, spec, idOrObj) == Absent
  {
    AbsentIffReportsMissing(body);
  }

  /** A model without compositions reads as what `compute` makes of the node, and asks no query. */
  lemma ReadWithoutCompositions(reg: Write.Registry, rd: Reader, fuel: nat, spec: ModelSpec, idOrObj: Value, p: Props)
    requires Write.WellFormed(reg) && Write.Closed(reg, spec) && idOrObj != Null && spec.compositions.keys == []
    requires rd.lookup(spec.modelType, IdOf(GetId.GetId(spec.idKey, idOrObj).value)) == Ok(Obj(p))
    ensures ReadNode(reg, rd, fuel, spec, idOrObj) ==
      match rd.compute(spec.modelType, Obj(p))
      case Ok(v) => Found(v)
      case Err(e) => Failed(e)
  {
    assert Extend(p, Empty()) == p;
  }

  /**
   * `readComposition(idOrObj, comp)`: an empty name is rejected, an unknown
   * one throws reading its descriptor; otherwise only that composition is
   * fetched, and its value, sorted again, is the answer.
   */
  function ReadComposition(reg: Write.Registry, rd: Reader, fuel: nat, spec: ModelSpec, idOrObj: Value, comp: string): (r: JsResult<Value>)
    requires Write.WellFormed(reg) && Write.Closed(reg, spec)
    ensures idOrObj != Null && comp == "" ==> r == Err(Plain("No such composition: "))
    ensures idOrObj != Null && comp != "" && comp !in spec.compositions.vals ==> r == Err(TypeError("Cannot read property 'rel' of undefined"))
  {
    var id :- GetId.GetId(spec.idKey, idOrObj);
    if comp == "" then
      assert "No such composition: " + comp == "No such composition: ";
      Err(Plain("No such composition: " + comp))
    else if comp !in spec.compositions.vals then Err(TypeError("Cannot read property 'rel' of undefined"))
    else
      var one := Empty<Composition>().Put(comp, spec.compositions.vals[comp]);
      var res :- FetchAll(reg, rd, fuel, spec, IdOf(id), one);
      Ok(Get(SortCompositions.SortAll(spec.compositions, spec.compositions.keys, res), comp))
  }

  /** The query readComposition sends names the one relationship type of the composition asked for. */
  lemma ReadCompositionQueriesOneRel(spec: ModelSpec, comp: string)
    requires comp in spec.compositions.vals
    ensures var one := Empty<Composition>().Put(comp, spec.compositions.vals[comp]);
      FetchCypher(CompositionRelationCypherList.CypherComposedRelationList(one))
        == FetchCypher("`" + spec.compositions.vals[comp].rel + "`")
  {
    var one := Empty<Composition>().Put(comp, spec.compositions.vals[comp]);
    assert CompositionRelationCypherList.QuotedRels(one, one.keys) == ["`" + spec.compositions.vals[comp].rel + "`"];
  }

  /** The answer of readComposition keeps the read side's cardinality rule. */
  lemma ReadCompositionCardinality(reg: Write.Registry, rd: Reader, fuel: nat, spec: ModelSpec, idOrObj: Value, comp: string)
    requires Write.WellFormed(reg) && Write.Closed(reg, spec) && idOrObj != Null
    requires ReadComposition(reg, rd, fuel, spec, idOrObj, comp).Ok? && comp in spec.compositions.vals
    requires var one := Empty<Composition>().Put(comp, spec.compositions.vals[comp]);
      var root := IdOf(GetId.GetId(spec.idKey, idOrObj).value);
      FetchedGroups(rd, spec.idKey, root, one).Ok? && Truthy(Get(FetchedGroups(rd, spec.idKey, root, one).value, comp))
    ensures var one := Empty<Composition>().Put(comp, spec.compositions.vals[comp]);
      var root := IdOf(GetId.GetId(spec.idKey, idOrObj).value);
      var n := |Wrap(Get(FetchedGroups(rd, spec.idKey, root, one).value, comp))|;
      var v := ReadComposition(reg, rd, fuel, spec, idOrObj, comp).value;
      spec.compositions.vals[comp].many || n != 1 ==> v.Arr? && |v.items| == n
  {
    var one := Empty<Composition>().Put(comp, spec.compositions.vals[comp]);
    var root := IdOf(GetId.GetId(spec.idKey, idOrObj).value);
    var res := FetchAll(reg, rd, fuel, spec, root, one).value;
    FetchedCardinality(reg, rd, fuel, spec, root, one, comp);
    var n := |Wrap(Get(FetchedGroups(rd, spec.idKey, root, one).value, comp))|;
    if spec.compositions.vals[comp].many || n != 1 {
      SortKeepsArrayLength(spec.compositions, res, comp);
    }
  }
}

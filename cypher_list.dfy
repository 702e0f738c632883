/** lib/composition-relation-cypher-list.js: the `|`-separated list of a model's composition relationship types. */
module CompositionRelationCypherList {
  import opened Strings
  import opened Js
  import opened Compositions

  /** A relationship type in backticks. */
  function Quote(rel: string): string
  {
    "`" + rel + "`"
  }

  /** The quoted relationship type of each listed composition, in the order listed. */
  function QuotedRels(comps: CompositionMap, ks: seq<string>): (r: seq<string>)
    requires forall k | k in ks :: k in comps.vals
    ensures |r| == |ks|
    ensures forall i | 0 <= i < |ks| :: r[i] == Quote(comps.vals[ks[i]].rel)
  {
    if ks == [] then [] else [Quote(comps.vals[ks[0]].rel)] + QuotedRels(comps, ks[1..])
  }

  /** `cypherComposedRelationList(comps)`. */
  function CypherComposedRelationList(comps: CompositionMap): string
    requires comps.Valid()
  {
    Join(QuotedRels(comps, comps.keys), "|")
  }

  /** The list is empty exactly when the model has no compositions: callers read "" as "nothing composed". */
  lemma EmptyIffNoCompositions(comps: CompositionMap)
    requires comps.Valid()
    ensures CypherComposedRelationList(comps) == "" <==> comps.keys == []
  {
    var q := QuotedRels(comps, comps.keys);
    if |q| > 0 {
      assert |Join(q, "|")| >= |q[0]| >= 2 by {
        if |q| > 1 { assert Join(q, "|") == q[0] + "|" + Join(q[1..], "|"); }
      }
    }
  }

  /**
   * Read back, the list holds one entry per composition in key order, each the
   * composition's relationship type (not its name) in backticks.
   */
  lemma EntriesAreQuotedRels(comps: CompositionMap)
    requires comps.Valid() && comps.keys != []
    requires forall k | k in comps.vals :: '|' !in comps.vals[k].rel
    ensures var entries := Split(CypherComposedRelationList(comps), '|');
      && |entries| == |comps.keys|
      && forall i | 0 <= i < |entries| :: entries[i] == "`" + comps.vals[comps.keys[i]].rel + "`"
  {
    var q := QuotedRels(comps, comps.keys);
    forall i | 0 <= i < |q| ensures '|' !in q[i] {
      assert q[i] == "`" + comps.vals[comps.keys[i]].rel + "`";
    }
    SplitJoin(q, '|');
  }
}

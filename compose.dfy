/** lib/compose.js: registering a composition on a model. */
module Compose {
  import opened Wrappers
  import opened Js
  import opened Compositions
  import opened Hooks
  import opened SeraphModel
  import SortCompositions

  /** A string `orderBy` is rewritten to `{property: s}`; anything else stays as given. */
  function NormalizeOrderBy(v: Value): (r: Value)
    ensures v.Str? ==> r.Obj? && Get(r.props, "property") == v
    ensures !v.Str? ==> r == v
  {
    if v.Str? then Obj(Empty<Value>().Put("property", v)) else v
  }

  /** How the sort reads a stored `orderBy`: absent when falsy, else its `property` (as a key) and `desc`. */
  function OrderByOf(v: Value): Option<OrderBy>
  {
    if !Truthy(v) then None
    else Some(OrderBy(ToStr(Member(v, "property")), Truthy(Member(v, "desc"))))
  }

  /** The descriptor `compose` stores, from the options object after its `orderBy` was normalised. */
  function Descriptor(targetType: string, compositionName: string, relName: Value, opts: Props): (c: Composition)
    ensures c.model == targetType && c.name == compositionName
    ensures c.rel == if Truthy(relName) then ToStr(relName) else compositionName
    ensures c.many == Truthy(Get(opts, "many")) && c.transient == Truthy(Get(opts, "transient"))
    ensures Get(opts, "orderBy").Str? ==> c.orderBy == Some(OrderBy(Get(opts, "orderBy").s, false))
    ensures !Truthy(Get(opts, "orderBy")) && !Get(opts, "orderBy").Str? ==> c.orderBy.None?
    ensures Truthy(Get(opts, "orderBy")) && !Get(opts, "orderBy").Str? ==>
      c.orderBy == Some(OrderBy(ToStr(Member(Get(opts, "orderBy"), "property")), Truthy(Member(Get(opts, "orderBy"), "desc"))))
  {
    Composition(
      targetType,
      if Truthy(relName) then ToStr(relName) else compositionName,
      compositionName,
      Truthy(Get(opts, "many")),
      OrderByOf(NormalizeOrderBy(Get(opts, "orderBy"))),
      Truthy(Get(opts, "transient")))
  }

  /** The options object after `compose` rewrote a string `orderBy` in place. */
  function NormalizedOptions(opts: Props): Props
  {
    var o := Get(opts, "orderBy");
    if o.Str? then opts.Put("orderBy", NormalizeOrderBy(o)) else opts
  }

  /** An event map with `hooks` appended to the afterSave list. */
  function WithAfterSave(events: map<string, seq<Hook>>, hooks: seq<Hook>): (r: map<string, seq<Hook>>)
    requires "afterSave" in events
    ensures r.Keys == events.Keys && |r["afterSave"]| == |events["afterSave"]| + |hooks|
    ensures r["afterSave"][..|events["afterSave"]|] == events["afterSave"]
    ensures r["afterSave"][|events["afterSave"]|..] == hooks
    ensures forall e | e in events && e != "afterSave" :: r[e] == events[e]
  {
    events["afterSave" := events["afterSave"] + hooks]
  }

  /**
   * `addCodependant.call(self, target, comp)`: one afterSave listener on the
   * composing model and one on the composed model (both on the same list
   * when a model composes itself).
   */
  method AddCodependant(self: Model, target: Model, comp: Composition)
    requires "afterSave" in self.events && "afterSave" in target.events
    modifies self, target
    ensures self.Spec() == old(self.Spec()).(events := self.events)
    ensures target.Spec() == old(target.Spec()).(events := target.events)
    ensures self != target ==>
      && self.events == WithAfterSave(old(self.events), [TimestampOfComposer(comp.name)])
      && target.events == WithAfterSave(old(target.events), [TimestampOfComposed(comp.rel)])
    ensures self == target ==>
      self.events == WithAfterSave(old(self.events), [TimestampOfComposer(comp.name), TimestampOfComposed(comp.rel)])
  {
    ghost var before := self.events["afterSave"];
    var e1 := self.On("afterSave", TimestampOfComposer(comp.name));
    var e2 := target.On("afterSave", TimestampOfComposed(comp.rel));
    if self == target {
      assert before + [TimestampOfComposer(comp.name)] + [TimestampOfComposed(comp.rel)]
          == before + [TimestampOfComposer(comp.name), TimestampOfComposed(comp.rel)];
    }
  }

  /**
   * `compose.call(self, target, compositionName, relName, opts)`. A null
   * `opts` stands for a falsy one (replaced by `{}`). With a truthy
   * `updatesTimestamp` the codependant listeners are added.
   */
  method Compose(self: Model, target: Model, compositionName: string, relName: Value, opts: JsObject?)
    requires "afterSave" in self.events && "afterSave" in target.events
    modifies self, target, opts
    ensures opts != null ==> opts.props == NormalizedOptions(old(opts.props))
    ensures var o := if opts == null then Empty<Value>() else old(opts.props);
      var comp := Descriptor(old(target.modelType), compositionName, relName, o);
      && self.Spec() == old(self.Spec()).(compositions := self.compositions, events := self.events)
      && self.compositions == old(self.compositions).Put(compositionName, comp)
      && (self != target ==> target.Spec() == old(target.Spec()).(events := target.events))
      && (!Truthy(Get(o, "updatesTimestamp")) ==> self.events == old(self.events) && target.events == old(target.events))
      && (Truthy(Get(o, "updatesTimestamp")) && self != target ==>
            && self.events == WithAfterSave(old(self.events), [TimestampOfComposer(compositionName)])
            && target.events == WithAfterSave(old(target.events), [TimestampOfComposed(comp.rel)]))
      && (Truthy(Get(o, "updatesTimestamp")) && self == target ==>
            self.events == WithAfterSave(old(self.events),
              [TimestampOfComposer(compositionName), TimestampOfComposed(comp.rel)]))
  {
    var o: Props;
    ghost var given: Props := if opts == null then Empty() else opts.props;
    ghost var selfBefore := self.Spec();
    ghost var targetBefore := target.Spec();
    if opts == null {
      o := Empty();
    } else {
      if Get(opts.props, "orderBy").Str? {
        opts.props := opts.props.Put("orderBy", NormalizeOrderBy(Get(opts.props, "orderBy")));
      }
      o := opts.props;
    }
    assert o == NormalizedOptions(given);
    assert self.Spec() == selfBefore && target.Spec() == targetBefore;
    var comp := Descriptor(target.modelType, compositionName, relName, o);
    NormalizedDescriptor(target.modelType, compositionName, relName, given);
    self.compositions := self.compositions.Put(compositionName, comp);
    assert self.Spec() == selfBefore.(compositions := self.compositions);
    assert self != target ==> target.Spec() == targetBefore;
    if Truthy(Get(o, "updatesTimestamp")) {
      AddCodependant(self, target, comp);
    }
  }

  /**
   * Rewriting a string `orderBy` in place changes neither the descriptor the
   * options describe nor their `updatesTimestamp`.
   */
  lemma NormalizedDescriptor(targetType: string, compositionName: string, relName: Value, given: Props)
    ensures var o := NormalizedOptions(given);
      && Descriptor(targetType, compositionName, relName, o) == Descriptor(targetType, compositionName, relName, given)
      && Get(o, "updatesTimestamp") == Get(given, "updatesTimestamp")
  {
  }

  /** Composing again under the same name replaces the descriptor and keeps the key's place. */
  lemma RecomposeReplaces(comps: CompositionMap, name: string, first: Composition, second: Composition)
    ensures comps.Put(name, first).Put(name, second) == comps.Put(name, second)
  {
  }

  /**
   * What compose stores is what the sort applies: a string `orderBy` sorts
   * the composition's array ascending by that property, into a permutation.
   * It is in numeric order when every value there is a number, and in the
   * order `<` gives strings when every value there is a string.
   */
  lemma StringOrderBySortsAscending(targetType: string, name: string, relName: Value, opts: Props, node: Props)
    requires Get(opts, "orderBy").Str? && Get(node, name).Arr?
    ensures var sorted := Get(SortCompositions.SortOne(Descriptor(targetType, name, relName, opts), node), name);
      sorted.Arr? && multiset(sorted.items) == multiset(Get(node, name).items)
    ensures var o := OrderBy(Get(opts, "orderBy").s, false);
      var sorted := Get(SortCompositions.SortOne(Descriptor(targetType, name, relName, opts), node), name);
      (forall v | v in Get(node, name).items :: SortCompositions.HasNumericKey(o, v)) ==>
        SortCompositions.SortedByKey(o, sorted.items)
    ensures var o := OrderBy(Get(opts, "orderBy").s, false);
      var sorted := Get(SortCompositions.SortOne(Descriptor(targetType, name, relName, opts), node), name);
      (forall v | v in Get(node, name).items :: SortCompositions.HasStringKey(o, v)) ==>
        SortCompositions.SortedByString(o, sorted.items)
  {
    var o := OrderBy(Get(opts, "orderBy").s, false);
    var c := Descriptor(targetType, name, relName, opts);
    assert c.orderBy == Some(o);
    var items := Get(node, name).items;
    assert Get(SortCompositions.SortOne(c, node), name) == Arr(SortCompositions.SortArray(o, items));
    if forall v | v in items :: SortCompositions.HasNumericKey(o, v) {
      SortCompositions.SortArrayOrdersNumbers(o, items);
    }
    if forall v | v in items :: SortCompositions.HasStringKey(o, v) {
      SortCompositions.SortArrayOrdersStrings(o, items);
    }
  }

  /**
   * An object `orderBy` such as `{property: p, desc: true}` is stored as it
   * is: the sort permutes the composition's array into order by `p`,
   * descending exactly when `desc` is truthy. It is in numeric order for
   * number values and in the order `<` gives strings for string values.
   */
  lemma ObjectOrderBySorts(targetType: string, name: string, relName: Value, opts: Props, node: Props)
    requires Get(opts, "orderBy").Obj? && Get(node, name).Arr?
    ensures var sorted := Get(SortCompositions.SortOne(Descriptor(targetType, name, relName, opts), node), name);
      sorted.Arr? && multiset(sorted.items) == multiset(Get(node, name).items)
    ensures var o := Get(opts, "orderBy");
      var ob := OrderBy(ToStr(Member(o, "property")), Truthy(Member(o, "desc")));
      var sorted := Get(SortCompositions.SortOne(Descriptor(targetType, name, relName, opts), node), name);
      (forall v | v in Get(node, name).items :: SortCompositions.HasNumericKey(ob, v)) ==>
        SortCompositions.SortedByKey(ob, sorted.items)
    ensures var o := Get(opts, "orderBy");
      var ob := OrderBy(ToStr(Member(o, "property")), Truthy(Member(o, "desc")));
      var sorted := Get(SortCompositions.SortOne(Descriptor(targetType, name, relName, opts), node), name);
      (forall v | v in Get(node, name).items :: SortCompositions.HasStringKey(ob, v)) ==>
        SortCompositions.SortedByString(ob, sorted.items)
  {
    var o := Get(opts, "orderBy");
    var ob := OrderBy(ToStr(Member(o, "property")), Truthy(Member(o, "desc")));
    var c := Descriptor(targetType, name, relName, opts);
    assert c.orderBy == Some(ob);
    var items := Get(node, name).items;
    assert Get(SortCompositions.SortOne(c, node), name) == Arr(SortCompositions.SortArray(ob, items));
    if forall v | v in items :: SortCompositions.HasNumericKey(ob, v) {
      SortCompositions.SortArrayOrdersNumbers(ob, items);
    }
    if forall v | v in items :: SortCompositions.HasStringKey(ob, v) {
      SortCompositions.SortArrayOrdersStrings(ob, items);
    }
  }
}

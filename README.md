# seraph-model in Dafny

A model of the core of seraph-model, a modelling layer over a Neo4j client
written in JavaScript, with proofs of what that core promises.

seraph-model handles:

- **Models**: a type label, a field whitelist, compositions, and named lists of listeners (prepare, validate, beforeSave, afterSave, index).
- **Compositions**: a child model reached over a relationship type. A composition may be `many`, may have an `orderBy`, and may be `transient`.
- **Save**: runs the listeners over the whole object tree, stores the root stripped of its compositions, removes stale composition edges, relates every child, indexes new objects, then sorts, notifies and computes.
- **Read**: fetches a node with every composed child in one traversal, folds the rows back into composition keys, and reads a missing node as `false`.
- **Query text**: START, WHERE and relationship-list clauses for Cypher.

The model is value-based where the source computes values and imperative where the source changes state in place:

- A model object is the class `SeraphModel.Model`, whose `On`, `ComposeRel`, `Compose.Compose` and `Schema.ParseSchemaType` update its fields.
- A predicate rewritten by `getMatchers`, a node sorted by `sortComps`, the target of `transformComposedNodes` and the clone `commit` strips are `Js.JsObject` objects.
- The database is a log of the requests the write path makes (`WriteSteps.Store`), plus functions that stand for the answers of queries, node lookups, index callbacks and `compute`.

Modules, one file each:

| file | module | source |
|---|---|---|
| wrappers.dfy | Wrappers | `Option` / `Result` |
| strings.dfy | Strings | the string built-ins the source calls (`join`, `parseInt`, `trim`, case changes, `substring`) |
| js.dfy | Js | JavaScript values, ordered plain objects, `==null`, truthiness, `String`, `<`, `_.pick`, `_.extend`, errors |
| get_id.dfy | GetId | lib/get-id.js |
| compositions.dfy | Compositions | the composition descriptor |
| cypher_list.dfy | CompositionRelationCypherList | lib/composition-relation-cypher-list.js |
| match.dfy | Match | lib/match.js |
| sort_compositions.dfy | SortCompositions | lib/sort-compositions.js |
| transform.dfy | TransformComposedNodes | lib/transform-composed-nodes.js |
| schema_rules.dfy | SchemaRules | the prepare and validate rules of lib/schema.js |
| hooks.dfy | Hooks | listeners and the three ways lib/model.js runs them |
| model.dfy | SeraphModel | lib/model.js |
| compose.dfy | Compose | lib/compose.js |
| schema.dfy | Schema | `parseSchemaType` of lib/schema.js |
| write_steps.dfy | WriteSteps | the single decisions of lib/write.js |
| write.dfy | Write | `save` of lib/write.js: beforeCommit, commit, indexAll, afterCommit |
| read.dfy | Read | lib/read.js |

Recursive walks over composed children can follow the object tree arbitrarily deep, and on the read side the database graph, so they are bounded by a `fuel` parameter (see "Left out").

## Model

| member | source | states |
|---|---|---|
| GetId.GetId | lib/get-id.js:1-5 | getId fails exactly for a `null` input (`typeof null` is 'object', so the property read throws) |
| GetId.GetIdOfNumber | lib/get-id.js:2-4 | a number is its own id |
| GetId.GetIdOfObject | lib/get-id.js:2 | an object's id is its id property, parsed like a bare id |
| GetId.GetIdOfLeadingDigits | lib/get-id.js:3 | leading digits are parsed and the rest ignored: '12x' gives 12 |
| GetId.GetIdWithoutDigits | lib/get-id.js:3-4 | undefined, '' and digit-free text have no id (null) |
| GetId.GetIdOfUnsavedObject | lib/get-id.js:2-4 | an object without its id property has no id |
| Strings.ParseIntOfDecimal | lib/get-id.js:3 | `parseInt(_, 10)` reads back the decimal form of any integer and stops at the first non-digit |
| Strings.ParseIntNoDigits | lib/get-id.js:3-4 | `parseInt` of a string without digits is NaN |
| CompositionRelationCypherList.QuotedRels | lib/composition-relation-cypher-list.js:2-4 | one entry per composition key, in key order, each the composition's `rel` in backticks |
| CompositionRelationCypherList.EmptyIffNoCompositions | lib/composition-relation-cypher-list.js:2-5 | the list is "" exactly when there are no compositions |
| CompositionRelationCypherList.CypherComposedRelationList | lib/composition-relation-cypher-list.js:1-6 | the backticked rels joined by `\|` (specified by QuotedRels, EmptyIffNoCompositions and EntriesAreQuotedRels) |
| CompositionRelationCypherList.EntriesAreQuotedRels | lib/composition-relation-cypher-list.js:2-5 | splitting the list at `\|` gives back each composition's backticked `rel` in key order (round trip of the join) |
| Match.Rewritten | lib/match.js:3-4 | a RegExp becomes the string `'(?isu)' + source`; every other value is kept |
| Match.MatchersOf | lib/match.js:2-14 | one matcher per listed key, in order, each the matcher for that key's value |
| Match.RewriteKeys | lib/match.js:2-4 | rewriting keeps the predicate's keys and their order |
| Match.GetMatchers | lib/match.js:1-15 | the loop returns the matchers of every key in key order and leaves the predicate object rewritten in place |
| Match.RewriteKeysOther | lib/match.js:3-4 | a key not rewritten keeps its value |
| Match.RewriteKeysContents | lib/match.js:3-4 | rewriting distinct keys replaces exactly their values by the rewritten ones |
| Match.PredicateAfterGetMatchers | lib/match.js:2-4 | afterwards the predicate holds no RegExp, keeps its key order, and each value is the rewritten old one |
| Match.MatchersAgreeWithPredicate | lib/match.js:3-13 | matcher i is `v.k =~ {v_k}` for a RegExp, `v.k in {v_k}` for an array, `v.k = {v_k}` otherwise, and a RegExp key then holds its pattern string |
| Match.SecondCallMatchesByEquality | lib/match.js:3-13 | because the rewrite is in place, a second getMatchers matches a former RegExp key with `=` |
| Match.ComposeWhere | lib/match.js:17-19 | `WHERE ` and the matchers joined by OR or AND (specified by ComposeWhereTwo and ComposeWhereParts) |
| Match.ComposeWhereTwo | lib/match.js:17-19 | composeWhere joins the conditions with OR when `any` is set and with AND otherwise |
| Match.ComposeWhereParts | lib/match.js:17-19 | for any list of matchers the text is "WHERE " followed by each matcher at its offset, the connective between neighbours, and nothing after the last |
| Strings.JoinPartAt | lib/match.js:18 | `join` places each part at its offset, for any separator |
| Strings.JoinSepAfter | lib/match.js:18 | every part but the last is followed by the separator |
| Strings.JoinLength | lib/match.js:18 | nothing follows the last part |
| Strings.PrefixedJoinParts | lib/match.js:18 | after a prefix, each part, its separator and the end sit at the offsets shifted by the prefix |
| Match.PrefixKeys | lib/match.js:24-28 | the extension built by the reduce is a well-formed object |
| Match.PrefixKeysContents | lib/match.js:24-28 | the extension holds every condition key k as `rel_k` with its value, and nothing else |
| Match.ExtendPredicateWithoutCondition | lib/match.js:22 | without a match condition the predicate itself is returned |
| Match.ExtendPredicate | lib/match.js:21-32 | the predicate, extended with the `rel_k` condition keys (specified by ExtendPredicateWithoutCondition and ExtendPredicateContents) |
| Match.ExtendPredicateContents | lib/match.js:21-32 | the extended predicate has each condition value under `rel_k`, every other predicate key unchanged (extension keys win), and no other key |
| SortCompositions.Compare | lib/sort-compositions.js:7-11 | the comparator answers -1, 0 or 1; its order is given by CompareEqualIsZero, CompareAntisymmetric, CompareNumeric and CompareString |
| SortCompositions.CompareNumeric | lib/sort-compositions.js:8-10 | on numeric properties the comparator is the integer order, reversed when `desc` |
| SortCompositions.CompareString | lib/sort-compositions.js:8-10 | on string properties the comparator is the lexicographic order of `<`, reversed when `desc` |
| SortCompositions.CompareEqualIsZero | lib/sort-compositions.js:10 | elements whose ordering properties are equal compare as 0, whatever the values |
| SortCompositions.CompareAntisymmetric | lib/sort-compositions.js:8-10 | swapping the two elements negates the answer, for any values |
| SortCompositions.CompareTransitive | lib/sort-compositions.js:8-10 | on keys that are all numbers or all strings, "does not compare above" is transitive |
| Strings.LexIrreflexive | lib/sort-compositions.js:8 | no string is `<` itself |
| Strings.LexTransitive | lib/sort-compositions.js:8-9 | `<` on strings is transitive |
| Strings.LexTotal | lib/sort-compositions.js:8-10 | of two different strings one is `<` the other, so only equal strings compare as 0 |
| Strings.LexAsymmetric | lib/sort-compositions.js:8-9 | `a < b` and `b < a` never both hold for strings |
| Strings.LexNotLessTransitive | lib/sort-compositions.js:8-10 | "not below" is transitive on strings: `<` induces a total preorder |
| SortCompositions.Insert | lib/sort-compositions.js:7 | inserting adds exactly the element (multiset) |
| SortCompositions.SortBy | lib/sort-compositions.js:7 | the stable sort is a permutation |
| SortCompositions.SortArray | lib/sort-compositions.js:7 | `Array.prototype.sort` with the comparator (undefined elements last) is a permutation |
| SortCompositions.SortArraySortedByComparator | lib/sort-compositions.js:7-11 | when the keys are all numbers or all strings, the sort is a permutation in which no element compares above a later one |
| SortCompositions.SortArrayOrdersNumbers | lib/sort-compositions.js:7-11 | with numeric properties the sorted array is a permutation ordered ascending, or descending when `desc` |
| SortCompositions.SortArrayOrdersStrings | lib/sort-compositions.js:7-11 | with string properties (names, ISO dates) the sorted array is a permutation in lexicographic order, descending when `desc` |
| SortCompositions.SortOne | lib/sort-compositions.js:4-11 | sorting one composition keeps the node's keys and their order |
| SortCompositions.SortAll | lib/sort-compositions.js:3-12 | sorting every composition keeps the node's keys and their order |
| SortCompositions.SortComps | lib/sort-compositions.js:1-14 | the loop sorts the node object in place to exactly SortAll of its old properties |
| SortCompositions.SortAllOnlyReorders | lib/sort-compositions.js:5-7 | every property keeps its value except arrays, which become a permutation of themselves |
| SortCompositions.SortAllLeavesOthers | lib/sort-compositions.js:3-5 | a property that no ordered composition names (by `comp.name`) is untouched |
| SortCompositions.SortAllAt | lib/sort-compositions.js:3-11 | a composition stored under its own name with an `orderBy` leaves its array in SortArray order |
| TransformComposedNodes.FirstIndex | lib/transform-composed-nodes.js:17 | `indexOf` by strict equality on primitives: -1 exactly when absent, else the first position holding the value |
| TransformComposedNodes.ChildIndex | lib/transform-composed-nodes.js:17 | the index handed to the iterator: an object child (compared by reference) gets its own position; a primitive child gets the first position holding an equal primitive |
| TransformComposedNodes.IndexOfDistinctChild | lib/transform-composed-nodes.js:17 | a child gets its own position exactly when it is an object or no equal primitive comes before it |
| TransformComposedNodes.Wrap | lib/transform-composed-nodes.js:14 | an array is kept; anything else becomes a one-element array |
| TransformComposedNodes.Collapse | lib/transform-composed-nodes.js:21-23 | a `many` composition yields an array; otherwise the single result is unwrapped and several stay an array |
| TransformComposedNodes.MapChildren | lib/transform-composed-nodes.js:16-19 | on success there is one result per child |
| TransformComposedNodes.TransformChildren | lib/transform-composed-nodes.js:16-26 | the loop over one key's children returns the first child's error, or the results collapsed as for that composition |
| TransformComposedNodes.MapChildrenErrorStays | lib/transform-composed-nodes.js:18-19 | once a child failed, the later children change nothing |
| TransformComposedNodes.KeyResults | lib/transform-composed-nodes.js:7-27 | on success there is one result per composition key |
| TransformComposedNodes.KeyResultsErrorStays | lib/transform-composed-nodes.js:27-28 | once a key failed, the later keys change nothing |
| TransformComposedNodes.TransformComps | lib/transform-composed-nodes.js:4-37 | the transform over a model's compositions: the first error or the target with the results assigned (specified by KeyResults, AssignShape, OtherKeysUntouched, CompositionKeyResult and FailingChildFailsTransform) |
| TransformComposedNodes.TransformComposedNodes | lib/transform-composed-nodes.js:4-37 | on success the target object holds the transformed result; on failure it is left untouched and the error is returned |
| TransformComposedNodes.AssignOther | lib/transform-composed-nodes.js:30-33 | a key not assigned keeps the target's value |
| TransformComposedNodes.AssignAt | lib/transform-composed-nodes.js:30-33 | an assigned key holds its result when truthy and the old value otherwise |
| TransformComposedNodes.AssignShape | lib/transform-composed-nodes.js:30-33 | assigning adds no key but the composition keys |
| TransformComposedNodes.OtherKeysUntouched | lib/transform-composed-nodes.js:30-35 | a key that is not a composition keeps the target's value |
| TransformComposedNodes.CompositionKeyResult | lib/transform-composed-nodes.js:11-32 | a composition key ends up with its truthy result, and keeps the target's value when the source held nothing truthy there |
| TransformComposedNodes.ManyYieldsArray | lib/transform-composed-nodes.js:14-23 | a `many` composition yields an array with one result per child |
| TransformComposedNodes.MapChildrenIdentity | lib/transform-composed-nodes.js:16-18 | with the identity iterator the results are the children, in order |
| TransformComposedNodes.IdentityRoundTrip | lib/transform-composed-nodes.js:14-23 | wrapping and collapsing undo each other for a single non-`many` child and for arrays of a `many` composition or of length other than one |
| TransformComposedNodes.FailingChildFailsTransform | lib/transform-composed-nodes.js:19-28 | one failing child fails the whole transformation |
| SchemaRules.FunctionTypeNameOfNamed | lib/schema.js:17-20 | the source text of `function String(` names the type "String" |
| SchemaRules.Cast | lib/schema.js:70-126 | the cast by type name (specified by BooleanCast, ArrayCast and PrepareCastIdempotent) |
| SchemaRules.BooleanCast | lib/schema.js:96-99 | the boolean cast is false exactly for '0' and falsy values |
| SchemaRules.ArrayCast | lib/schema.js:102-104 | the array cast keeps an array and wraps anything else |
| SchemaRules.PrepareCast | lib/schema.js:64-133 | a null or undefined field is left alone, and no other field changes |
| SchemaRules.PrepareCastIdempotent | lib/schema.js:68-127 | a second boolean, array or string cast changes nothing |
| SchemaRules.PrepareDefault | lib/schema.js:135-140 | the default hook changes no other field |
| SchemaRules.DefaultOnlyWhenMissing | lib/schema.js:137 | the field becomes the default exactly when it was null or undefined |
| SchemaRules.PrepareString | lib/schema.js:142-151 | a falsy field passes unchanged; a truthy non-string throws; no other field changes |
| SchemaRules.PrepareStringIdempotent | lib/schema.js:144-147 | trimming or changing case twice equals doing it once |
| SchemaRules.ValidateRequired | lib/schema.js:153-158 | `required` fails exactly for a null or undefined field |
| SchemaRules.IndexOfFinds | lib/schema.js:173 | `indexOf` finds only a listed primitive (specified by EnumPassesIffListed) |
| SchemaRules.ValidateEnum | lib/schema.js:170-176 | the enum check (specified by EnumPassesIffListed) |
| SchemaRules.EnumPassesIffListed | lib/schema.js:170-176 | `enum` passes exactly for undefined or a listed primitive value; `indexOf` never finds an object value, a different reference from the listed ones |
| SchemaRules.ValidateBound | lib/schema.js:178-190 | the min/max check (specified by NumericBoundsInclusive and MissingFieldFailsBounds) |
| SchemaRules.NumericBoundsInclusive | lib/schema.js:178-190 | on numbers, min passes iff value >= min and max iff value <= max |
| SchemaRules.MissingFieldFailsBounds | lib/schema.js:180-187 | an undefined field fails every numeric bound (it compares as NaN) |
| SchemaRules.ValidateMatch | lib/schema.js:160-168 | `match` passes exactly when the pattern test accepts the field's string form |
| Hooks.FieldKeys | lib/model.js:24 | the picked keys are the string forms of `fields`, in order |
| Hooks.WhitelistPassesWithoutFields | lib/model.js:21-22 | without a non-empty `fields` array the whitelist lets the object through |
| Hooks.ApplyWhitelist | lib/model.js:20-26 | `_.pick` of the fields and the id key, or the object when no fields are listed (specified by WhitelistPassesWithoutFields and WhitelistKeepsListed) |
| Hooks.WhitelistKeepsListed | lib/model.js:23-24 | with listed fields exactly those properties and the id key survive, with their values |
| Hooks.TransformChain | lib/model.js:116-125 | the prepare waterfall over a clone (specified by TransformChainAppend and FailureEndsChain) |
| Hooks.RunHook | lib/model.js:104-125 | one listener's outcome: the object it passes on or its error (specified by ProgressionIffAllPass and WhitelistKeepsListed) |
| Hooks.TransformChainAppend | lib/model.js:116-125 | running two lists one after the other equals running their concatenation |
| Hooks.FailureEndsChain | lib/model.js:123 | after a failing listener, later listeners make no difference |
| Hooks.Progression | lib/model.js:104-114 | a successful progression passes on the very object it got |
| Hooks.ProgressionIffAllPass | lib/model.js:104-114 | it succeeds iff every listener accepts the object, and otherwise reports the first failing listener's error |
| SeraphModel.TriggerEvent | lib/model.js:95-102 | notification always passes on the same object |
| SeraphModel.Model.constructor | lib/model.js:6-39 | a new model has no fields or compositions, the whitelist as its only prepare listener, the two index listeners, and empty validate, beforeSave and afterSave lists |
| SeraphModel.Model.On | lib/model.js:90-93 | `on` appends to the event's list; an unknown event gives "No such event - e" and changes nothing |
| SeraphModel.Model.ComposeRel | lib/model.js:158-163 | the model's own `compose` stores a descriptor with only the model and the relationship |
| SeraphModel.NewModelPreparesUnchanged | lib/model.js:20-26 | a new model prepares an object into itself |
| SeraphModel.WhitelistedModelPrepares | lib/model.js:20-26 | with `fields` set, prepare keeps exactly those fields and the id key |
| SeraphModel.OnRunsLast | lib/model.js:90-125 | a listener added with `on` runs after the existing ones, on what they passed on |
| SeraphModel.CypherStartRoundTrip | lib/model.js:154-156 | the START clause is `node:nodes(type = "` + type + `")`, and the type can be read back |
| SeraphModel.CypherStartInjective | lib/model.js:154-156 | two models share a START clause only if their types are equal |
| SeraphModel.Save | lib/model.js:41-58 | prepare, validate, beforeSave, store, index, afterSave (specified by SaveOrder and InvalidNeverPersisted) |
| SeraphModel.SaveOrder | lib/model.js:41-58 | save enters prepare, validate, beforeSave, store, index, afterSave in that order: a prefix of it, all of it exactly on success, and index only for an object without an id |
| SeraphModel.InvalidNeverPersisted | lib/model.js:51-58 | an object failing validation is never stored and the save fails |
| Compose.NormalizeOrderBy | lib/compose.js:34 | a string `orderBy` becomes `{property: s}`; anything else stays |
| Compose.Descriptor | lib/compose.js:36-43 | the descriptor's `name` is the composition name; `rel` is relName if truthy, else the name; `many` and `transient` are the truthiness of the options; a string `orderBy` sorts ascending by that property; a truthy object `orderBy` sorts by its `property`, descending exactly when its `desc` is truthy; a falsy one does not sort |
| Compose.WithAfterSave | lib/compose.js:6-21 | the listeners are appended to the afterSave list; every other list is unchanged |
| Compose.AddCodependant | lib/compose.js:3-30 | one afterSave listener is added to the composing model and one to the composed model (both on the same list for a self-composition) |
| Compose.NormalizedDescriptor | lib/compose.js:34-43 | rewriting a string `orderBy` in the options changes neither the descriptor built from them nor their `updatesTimestamp` |
| Compose.Compose | lib/compose.js:32-47 | the descriptor is stored under the name, replacing an earlier one; a string `orderBy` is rewritten in the options object; the timestamp listeners are added only with a truthy `updatesTimestamp` |
| Compose.RecomposeReplaces | lib/compose.js:36 | composing twice under one name keeps only the second descriptor, in the first one's place |
| Compose.ObjectOrderBySorts | lib/compose.js:34-41 | an object `orderBy` is stored as given: the composition is permuted into order by its `property`, descending when `desc` is truthy; numeric order for number values, lexicographic order for string values |
| Compose.StringOrderBySortsAscending | lib/compose.js:34-41 | a composition given a string `orderBy` is permuted into ascending order by that property: numeric order for number values, lexicographic order for string values |
| Schema.Options | lib/schema.js:6-10 | a bare string or function `t` stands for `{type: t}`; an object is its own options |
| Schema.OptionStep | lib/schema.js:13-60 | an option registers on prepare or validate, and throws exactly for `unique` or a type without `toLowerCase` |
| Schema.Compile | lib/schema.js:13-61 | at most one registration per option, all on prepare or validate |
| Schema.Registered | lib/schema.js:13-61 | registering keeps the set of events |
| Schema.ParseSchemaType | lib/schema.js:2-62 | the loop leaves the model with exactly the compiled registrations appended and returns the error that stopped it, if any |
| Schema.CompileErrorStays | lib/schema.js:58-60 | once an option threw, the options after it change nothing |
| Schema.RegisteredAppends | lib/model.js:90-93 | each event's list becomes the old list followed by its registrations, in order |
| Schema.BareStringType | lib/schema.js:6-22 | a bare type name registers one cast to its lowercase name on prepare |
| Schema.BareFunctionType | lib/schema.js:17-21 | a constructor registers the cast named after it, lowercased |
| Schema.FlagRegistersWhateverItsValue | lib/schema.js:33-35 | `required: false` still registers the required check |
| Schema.UniqueStopsCompiling | lib/schema.js:58-60 | `unique` throws; the options before it are registered and none after it |
| Schema.RequiredSchemaValidates | lib/schema.js:153-158 | a new model given `{required: …}` rejects an object in validation exactly when the field is null or undefined |
| Schema.EnumSchemaValidates | lib/schema.js:170-176 | a new model given `{enum: list}` accepts exactly undefined and listed primitive values |
| WriteSteps.IdParam | lib/write.js:74 | the id parameter is a number exactly when getId finds an id, and null otherwise |
| WriteSteps.Children | lib/write.js:61-68 | nothing for a falsy value, the elements of an array, else the value alone |
| WriteSteps.IdsOf | lib/write.js:63-67 | getId of each child in order; it throws exactly when a child is null |
| WriteSteps.Kept | lib/write.js:71 | the reject keeps exactly the present ids other than 0 (which `== ''`) |
| WriteSteps.NoCompositionsNoDelete | lib/write.js:54-56 | no delete is issued without compositions |
| WriteSteps.DeleteOldCompositionRels | lib/write.js:52-91 | no request without compositions, else one of the two delete queries (specified by NoCompositionsNoDelete, DeleteQueryChoice, DeleteCyphersDiffer and NullChildThrows) |
| WriteSteps.DeleteQueryChoice | lib/write.js:76-90 | the delete-every-edge query is chosen exactly when the exclude list is empty; otherwise the excluded ids are passed |
| WriteSteps.DeleteCyphersDiffer | lib/write.js:76-90 | the two delete queries are different texts |
| WriteSteps.ExcludeList | lib/write.js:58-72 | the non-zero ids of the composed children (specified by ExcludeListInKeyOrder and ExcludeListMembers) |
| WriteSteps.ExcludeListInKeyOrder | lib/write.js:58-72 | the exclude list follows composition-key order |
| WriteSteps.CompositionIdsMembers | lib/write.js:58-70 | the gathered ids are exactly those of the children under the composition keys |
| WriteSteps.ExcludeListMembers | lib/write.js:58-72 | an id is excluded iff it is the non-zero id of some composed child |
| WriteSteps.NullChildThrows | lib/write.js:63-66 | a null child makes getId throw, so no delete is issued |
| WriteSteps.RelateOp | lib/write.js:162-168 | a plain relate exactly when the child or the root is new, else relate-if-not-related |
| WriteSteps.NewnessTests | lib/write.js:153 | a new root (null id) is new as a child; an id of 0 makes a child new but not a root |
| WriteSteps.StrippedContents | lib/write.js:138-141 | the stripped clone keeps exactly the non-composition properties, with their values |
| WriteSteps.StripCompositions | lib/write.js:138-141 | the clone is a fresh object holding the stripped properties; the caller's object is not touched |
| WriteSteps.PlainSave | lib/write.js:109 | a save is logged; a node without an id gets the next id, one with an id keeps it |
| WriteSteps.ExecuteSave | lib/write.js:106-126 | an error writes nothing; success logs a save and returns the object, with its new id if it had none |
| WriteSteps.UniqueSaveOnlyWhenNew | lib/write.js:108-123 | saveUnique is used exactly for a new object of a model whose unique index conditional accepts it; otherwise a plain save |
| WriteSteps.ExistingObjectSavedPlainly | lib/write.js:109 | an object with an id is saved plainly |
| WriteSteps.IndexObject | lib/write.js:11-33 | indexing returns the object itself and only appends to the log |
| WriteSteps.IndexObjectRequestsEntries | lib/write.js:12-28 | at most one index entry per index, each for the object |
| WriteSteps.IndexObjectResultStoreFree | lib/write.js:11-33 | whether indexing succeeds does not depend on earlier requests |
| WriteSteps.PushComposition | lib/write.js:250-258 | an unknown name gives "Invalid composition name - X" whatever is pushed; on success an array yields one result per element and anything else one plan on the composition's `rel` |
| WriteSteps.PushTo | lib/write.js:260-285 | past the guards, an array is pushed element by element and anything else gets one plan on the composition's `rel` |
| WriteSteps.PushElements | lib/write.js:260-264 | the series yields one result per element, in order |
| WriteSteps.PushOne | lib/write.js:266-285 | a single object is planned against the root's id; it is related directly exactly when `_getId` finds a non-zero id, and saved first otherwise |
| WriteSteps.PushNeedsSavedRoot | lib/write.js:254-285 | a root without a non-zero id gives "You cannot push to an unsaved model" whatever is pushed, arrays included; a single object is planned against the root's id and related directly exactly when it has one |
| WriteSteps.PushReentry | lib/write.js:260-263 | an element pushed again through `pushComposition` with the root's id passes both guards and is pushed to that id |
| WriteSteps.PushAfterGuards | lib/write.js:251-258 | past the guards a push goes to the root's id; a failed guard fails every push |
| WriteSteps.PushElementsIffEach | lib/write.js:260-264 | the series succeeds exactly when every element, pushed on its own, succeeds |
| WriteSteps.PushElementsEach | lib/write.js:260-264 | in a successful series each element yields what it yields pushed on its own |
| WriteSteps.PushArrayElementwise | lib/write.js:250-264 | pushing an array succeeds exactly when the guards pass and every element pushed alone succeeds; the result at each position is that element's own |
| Write.BeforeCommitStep | lib/write.js:46-48 | the iterator runs beforeCommit of the child's own model; a non-object child or unknown model fails (specified by FailingChildFailsSave) |
| Write.BeforeCommit | lib/write.js:36-50 | prepare, validate and beforeSave on the object, then beforeCommit on every composed child (specified by OwnHooks, BeforeCommitKeepsOwnProperties and FailingChildFailsSave) |
| Write.OwnHooks | lib/write.js:38-43 | the waterfall passes iff prepare and validate (on prepare's output) pass, and yields prepare's output |
| Write.NodeRef | lib/write.js:144-148 | a new node is related by its new id, an existing one by the id it had |
| Write.RootWrites | lib/write.js:138-150 | the root's requests only append to the log |
| Write.CommitKeys | lib/write.js:152-170 | one value per composition key, each shaped by the cardinality rule |
| Write.CommitChildren | lib/write.js:152 | one saved object per child, in order, and the log only grows |
| Write.CommitChild | lib/write.js:153-168 | a non-object child fails; on success the last logged operation is the edge from the root: a plain relate exactly when the root or the child is new, otherwise the relate-if-not-related query with the root as parameter |
| Write.IndexAll | lib/write.js:182-218 | indexAll only appends to the log |
| Write.IndexKeys | lib/write.js:196-208 | a child's failure is never passed to the callback |
| Write.IndexChildren | lib/write.js:196-208 | a child's failure is never passed to the callback |
| Write.SaveModel | lib/write.js:243-249 | save only appends to the log |
| Write.FailingChildFailsSave | lib/write.js:36-50 | a child failing its own beforeCommit fails the save before any request |
| Write.BeforeCommitKeepsOwnProperties | lib/write.js:46-48 | a non-composition (or empty composition) property is as the model's own listeners left it |
| Write.RootWritesDeleteOnlyForExisting | lib/write.js:144-150 | stale edges are deleted only for a root that had an id, every edge when there is nothing to keep |
| Write.CommitSavesRootWithoutCompositions | lib/write.js:138-145 | commit's first request saves the root without any composition key |
| Write.Commit | lib/write.js:128-180 | the database only receives requests; the root is saved stripped, then each child and its edge (specified by CommitSavesRootWithoutCompositions, CommitWithCompositions, EachChildFollowedByItsEdge, CommitKeepsOwnProperties and CommitCardinality) |
| Write.CommitWithCompositions | lib/write.js:135-177 | commit is the root's requests, then the children's; it answers with the saved root extended with the children |
| Write.EachChildFollowedByItsEdge | lib/write.js:152-169 | each committed child is followed by its edge: relate iff root or child is new, else relate-if-not-related, from the root's reference with the composition's `rel` |
| Write.CommitKeepsOwnProperties | lib/write.js:174-177 | commit answers with every non-composition, non-id property unchanged |
| Write.CommitCardinality | lib/write.js:152-176 | a single child of a non-`many` composition comes back as an object, otherwise an array with one entry per child |
| Write.NewObjectIndexedFirst | lib/write.js:190-194 | a new object's index entries come first, for the saved object; their error reaches the callback before any child is indexed |
| Write.ExistingObjectNotReindexed | lib/write.js:190-191 | an object that had an id is not indexed again, only its children |
| Write.IndexAllOutcomeStoreFree | lib/write.js:182-218 | how indexAll ends does not depend on earlier requests |
| Write.ChildrenResolveIffEach | lib/write.js:196-208 | a composition's children resolve iff each child does |
| Write.KeysResolveIffEach | lib/write.js:196-208 | the composition keys resolve iff each key does |
| Write.ResolvedNeedsEveryChild | lib/write.js:196-213 | indexAll resolves only if every composed child's indexAll resolves |
| Write.UnindexedChildLeavesSaveUnanswered | lib/write.js:220-229 | a child whose indexing fails leaves the save unanswered or failed, never successful |
| Write.AfterCommitStep | lib/write.js:235-237 | the iterator runs afterCommit of the child's own model (specified through AfterCommitKeepsOwnProperties) |
| Write.AfterCommit | lib/write.js:231-240 | sort, notify afterSave, afterCommit on the children, then `compute` (specified by AfterCommitComputesAfterChildren, AfterCommitWithoutCompositions, AfterCommitKeepsOwnProperties and AfterChildrenFailureKeepsSorted) |
| Write.AfterChildren | lib/write.js:235-239 | the children as transformed on success, or as the in-place sorts left them when a child failed (specified by AfterChildrenLeavesOthers and AfterChildrenFailureKeepsSorted) |
| Write.SortTree | lib/write.js:233-236 | the in-place sorts of afterCommit over a whole tree keep each object's keys and their order |
| Write.SortKeys | lib/write.js:235-236 | sorting the children of the listed compositions keeps the object's keys and their order |
| Write.SortItems | lib/write.js:235-236 | each child object is replaced in its place by its sorted tree, and other values stay |
| Write.AfterCommitComputesAfterChildren | lib/write.js:231-240 | with afterSave registered, afterCommit answers with `compute` of the sorted object once its children are done |
| Write.AfterCommitWithoutCompositions | lib/write.js:231-240 | without compositions afterCommit answers with `compute` of the object |
| Write.AfterCommitKeepsOwnProperties | lib/write.js:231-240 | a child's afterCommit error never fails the parent; other properties come back unchanged |
| Write.AfterChildrenLeavesOthers | lib/write.js:235-239 | a property that is not a composition keeps its value whether the children succeed or fail |
| Write.AfterChildrenFailureKeepsSorted | lib/write.js:233-238 | when a child fails, what `compute` receives still holds, in each array-valued composition, every child object in its place as its own sorted tree |
| Write.SortTreeOrdersComposition | lib/sort-compositions.js:3-11 | in the sorted tree an ordered composition holds its children in SortArray order, each of them sorted in turn |
| Write.SortKeysLeavesOthers | lib/write.js:235 | a key that is not a listed composition keeps its value |
| Write.SortKeysAt | lib/write.js:235-236 | a listed composition holding an array holds its children's sorted trees |
| Write.AfterCommitAsWritten | lib/write.js:234 | as written, triggering afterSave without a callback throws |
| Write.AfterSaveCallbackMissing | lib/write.js:234 | on a plain `user` model afterCommit as intended answers with the object, as written it throws |
| Read.RelNames | lib/read.js:14-17 | every composition's `rel` maps to some composition name |
| Read.NamesForRels | lib/read.js:15-17 | the forEach fills the map to exactly RelNames of the composition keys |
| Read.RelNamesSnoc | lib/read.js:16 | one more composition maps its `rel` to its name and leaves the other types alone |
| Read.RelNamesLastWins | lib/read.js:14-17 | a `rel` maps back to a composition iff no later composition has the same `rel` |
| Read.RelNamesDomain | lib/read.js:14-17 | every mapped name is a composition whose `rel` is the type |
| Read.Prop | lib/read.js:32 | reading a property throws exactly on null or undefined |
| Read.GroupRows | lib/read.js:28-33 | the forEach yields exactly the fold of the rows |
| Read.GroupedSnoc | lib/read.js:31-33 | one more row: a null row throws, any other puts its nodes under its composition name |
| Read.GroupedErrorStays | lib/read.js:31-33 | after a throwing row, later rows change nothing |
| Read.GroupedFailsOnNullishRow | lib/read.js:31-33 | folding fails iff some row is null or undefined |
| Read.GroupedLastRowWins | lib/read.js:31-33 | a row's nodes stand under its name unless a later row maps to the same name |
| Read.GroupedHasRowNames | lib/read.js:31-33 | every row's name is a key of the result |
| Read.GroupedOnlyRowNames | lib/read.js:31-33 | the result has no key but the rows' names |
| Read.FetchedGroups | lib/read.js:20-33 | the traversal's rows folded by composition name (specified by GroupRows and the Grouped lemmas) |
| Read.FetchAll | lib/read.js:9-50 | `{}` without compositions, else the fetched children by cardinality (specified by FetchWithoutCompositions and FetchedCardinality) |
| Read.FetchWithoutCompositions | lib/read.js:10-11 | without compositions the answer is `{}` whatever the database would answer |
| Read.FetchedCardinality | lib/read.js:36-46 | fetched `many` compositions, or several nodes, come back as arrays with one entry per node |
| Read.ClassifyReadError | lib/read.js:75-95 | a read error never reads as found; a non-JSON or non-database error is passed on unchanged |
| Read.AbsentIffReportsMissing | lib/read.js:84-93 | a database report reads as `false` iff it reports a missing node (getNodeById) or a missing index (getIndexedNodes) |
| Read.MissingCauseThrows | lib/read.js:84-86 | an EntityNotFoundException without a cause makes the test itself throw a TypeError |
| Read.ReadNode | lib/read.js:53-101 | reading `null` fails |
| Read.MissingNodeReadsAbsent | lib/read.js:75-93 | a node the database reports missing reads as `false` |
| Read.ReadWithoutCompositions | lib/read.js:97-98 | a model without compositions reads as `compute` of the node |
| Read.ReadComposition | lib/read.js:102-115 | an empty name gives "No such composition: "; an unknown name throws reading `rel` of undefined |
| Read.ReadCompositionQueriesOneRel | lib/read.js:104-110 | the query names only the requested composition's `rel` |
| Read.ReadCompositionCardinality | lib/read.js:110-114 | the answer keeps the cardinality rule |

## Left out

- Database I/O is not executed: `db.save`, `saveUnique`, `index`, `relate`, `query`, batches and `txn.commit` become entries in the request log `WriteSteps.Store`, and query or lookup answers are parameters (`Read.Reader`).
- Concurrency: `async.parallel`, `async.map`, `collect` awaiters and `augur` promises run as sequential calls in source order. A batch's timing (when `txn.commit` happens relative to the requests) is not modelled.
- Write.Commit, Write.CommitKeys, Write.CommitChildren, Write.IndexAll, WriteSteps.IndexObject: the model stops issuing requests at the first error. In the source `async.map` and `async.forEach` have already started every iterator, and `txn.commit()` (lib/write.js:172) still runs. So after a failing child the source can still batch and commit later children and their edges, which the model's log does not contain. The error returned is the same.
- TransformComposedNodes.ChildIndex, SchemaRules.IndexOfFinds: the model holds values, not references. An object child is taken to be a reference of its own, so an array holding the same object twice gives each occurrence its own position, where `indexOf` would give both the first. An object field's value is never found in an `enum` list, even when the caller placed that very object in the list.
- Fuel: beforeCommit, commit, indexAll, afterCommit and fetchAll recurse without bound in the source. The model bounds the nesting depth by `fuel` and answers `OutOfFuel` past it.
- Registry: a composition names its model by type, and a type missing from the registry would answer `UnknownModel`. `Write.WellFormed` rules this out, so the branch is unreachable.
- A composed value that is not an object is reported as `Write.NotAnObject`, where the source would go on with a primitive in ways that depend on undefined property reads.
- Unique-save conflicts: what the database does when `saveUnique` meets an existing node is not modelled.
- lib/read.js:57: the index-only read branch is unreachable, because `Object.keys` returns an array and an array is always truthy. It is not modelled.
- `addCodependant` listener behaviour (blacklist, `process.nextTick`, timestamp queries): only the registration of the two afterSave listeners is modelled. The listeners do nothing in the model.
- `composeInclusiveSave` of lib/model.js is unfinished in the source. `SeraphModel.Save` models only the step order, with the store as a parameter. The root model.js is not part of this model.
- Date and number casts depend on JavaScript `Date` and floating-point `Number`. They are a parameter (`Hooks.Ext.otherCast`).
- The regular-expression engine is a parameter (`regexTest`).
- Numbers are unbounded integers: no floating point. NaN stands for a failed conversion and for every literal the model does not read (next line).
- Js.StringToNumber: reads only optionally signed decimal integer literals. Hexadecimal, binary and octal literals ("0x10", "0b11"), exponents ("1e3"), fractions and "Infinity" read as NaN, where JavaScript reads a number. This affects `min`/`max` validation (lib/schema.js:178-190) and the `<` of lib/sort-compositions.js on string values.
- PrepareString: `toUpperCase` and `toLowerCase` are modelled by Strings.Upper and Strings.Lower, which change the ASCII letters only. JavaScript also maps other letters ("café" to "CAFÉ") and can change the length ("ß" to "SS"). Unicode case tables are not modelled.
- GetId: seraph's `db._getId`, which is not part of this model, is taken to behave as lib/get-id.js (WriteSteps.IdsOf, WriteSteps.IdParam, WriteSteps.PushComposition, WriteSteps.PushTo, Hooks.IdValue).
- Write.NodeRef: the batch's in-request references to nodes saved earlier in the same batch are replaced by the ids those nodes end up with. The reference mechanism of seraph batches is not modelled.
- `setUniqueKey` calls a method lib/model.js does not define. The model reports it as the TypeError the call throws.
- `transient` is stored by `compose`, but no code in the core reads it, so saves write transient compositions like any other. The model follows the code.
- `SeraphError` and `CastError` (lib/error.js, not imported where lib/schema.js uses them) are abstracted to the error values of `Js.Error`.
- `compute` and `modelNodeIndex` (the lookup's index name) are defined outside the core. Both are parameters.
- When both parts of a read fail, the model reports the lookup's error. With compositions, an id that does not parse throws synchronously in the source before either request is made.
- Loose `==` comparisons in the error classification are taken as strict equality on the parsed JSON values.
- Only database errors carry a message that `JSON.parse` is tried on (`Js.DbMessage`); other errors are never classified as missing.
- `_.extend` onto a node that is not an object leaves the node unchanged.
- Errors thrown synchronously and errors passed to a callback are both modelled as `Err`.
- `compNamesForRels` is a plain object, so a `rel` such as `constructor` would also find inherited properties. The model uses a map without a prototype.
- Read.MissingCauseThrows: states only that the error is a TypeError, not its exact message text.
- Hooks.RunHook: an application listener's outcome is a parameter (`Ext.listener`), so what a listener does to the object is not modelled beyond passing on what it returns.
- Js.OMap: every key keeps its insertion order. JavaScript lists integer-like property names ("0", "42") first, in ascending order, before the other keys. A composition named by an integer-like string would therefore come earlier in the source's key order. That order feeds the exclude list, the relationship list (lib/composition-relation-cypher-list.js) and the order in which compositions are transformed.
- Js.Member: reading a property of `null` gives undefined in the model, where JavaScript throws a TypeError. For example, the sort comparator (lib/sort-compositions.js:8) throws on a `null` element of an ordered composition; the model sorts that element instead of failing.
- Write.AfterCommit: when a child's afterCommit fails, `compute` receives the children as the synchronous in-place sorts left them (`Write.SortKeys`). Two other in-place effects on the shared child objects are not modelled. The first is the results that descendants' transforms assign once they finish, which may come before or after the parent's `compute` depending on timing. The second is anything the afterSave listeners change.
- SortCompositions.SortArraySortedByComparator: an order is proved only when the ordering values are all numbers or all strings. With mixed kinds, a missing property (undefined, which compares as NaN) or a string that reads as NaN, the JavaScript comparator is not a consistent order, and the engine's result depends on its algorithm. The model gives its stable insertion sort's result and proves only that it is a permutation.
- Strings.LexLess: compares Unicode scalar values (Dafny `char`), where JavaScript compares UTF-16 code units. The two orders differ only between characters above U+FFFF and characters from U+E000 to U+FFFF.

## Findings

| source | as written | input that shows it | evidently intended | confidence | as-written member | corrected member |
|---|---|---|---|---|---|---|
| lib/write.js:234 | afterCommit calls `this.triggerEvent('afterSave', object)` without a callback, and triggerEvent (lib/model.js:101) then calls `callback(null, object)`, which throws a TypeError. The children's afterCommit and `compute` are never reached and the save never answers | any save that reaches afterCommit, e.g. a new `user` model without compositions (`InitialSpec("id", "user")`) whose `compute` answers with its object | afterSave listeners are notified, then the children go through afterCommit and the object through `compute` | high; not executed | Write.AfterCommitAsWritten | Write.AfterCommit |

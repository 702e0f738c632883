/** The composition descriptor shared by lib/compose.js, lib/write.js, lib/read.js and lib/sort-compositions.js. */
module Compositions {
  import opened Wrappers
  import opened Js

  /** A normalised `orderBy`: the property to sort children by, descending when `desc` was truthy. */
  datatype OrderBy = OrderBy(property: string, desc: bool)

  /**
   * One composition: the composed model (by its type), the relationship type
   * of its edges, the composition's name, whether it always holds an array,
   * the ordering of its children and whether it is transient.
   */
  datatype Composition = Composition(
    model: string,
    rel: string,
    name: string,
    many: bool,
    orderBy: Option<OrderBy>,
    transient: bool)

  /** A model's `compositions` object: descriptors keyed by composition name, in registration order. */
  type CompositionMap = OMap<Composition>
}

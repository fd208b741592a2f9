/** Optional values: a DOM lookup that finds nothing, a missing attribute, an absent storage entry. */
module Wrappers {
  datatype Option<+T> = None | Some(value: T)
}

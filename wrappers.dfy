/** Optional values: a missing field, a lookup that finds nothing, a `NaN`. */
module Wrappers {
  datatype Option<+T> = None | Some(value: T)
}

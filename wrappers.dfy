/** Optional values: a lookup that finds nothing, a pattern that does not match. */
module Wrappers {

  datatype Option<+T> = None | Some(value: T)
}

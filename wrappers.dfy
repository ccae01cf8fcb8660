/** Optional values: an absent request field, a nullable column, a missing row. */
module Wrappers {

  datatype Option<+T> = None | Some(value: T)
}

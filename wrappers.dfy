/** Optional values: the SQL NULL of a missing JSON field, the outcome of a parse. */
module Wrappers {
  datatype Option<+T> = None | Some(value: T)
}

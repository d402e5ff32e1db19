/** Optional values: a missing table cell, a failed lookup or a raised exception. */
module Wrappers {
  datatype Option<+T> = None | Some(value: T)
}

/** Optional values, for Python's `None` and for searches that may fail. */
module Wrappers {
  datatype Option<+T> = None | Some(value: T)
}

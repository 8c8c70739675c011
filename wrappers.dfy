/** Optional values: Python's `None` and, for the search, `float('inf')`. */
module Wrappers {
  datatype Option<+T> = None | Some(value: T)
}

/** Optional values, standing for Python's `None` returns and raised `KeyError`s. */
module Wrappers {
  datatype Option<T> = None | Some(value: T)
}

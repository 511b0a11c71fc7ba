/** Optional values used across the model. */
module Wrappers {

  /** The conventional Some/None datatype, standing in for Python's `None`. */
  datatype Option<+T> = None | Some(value: T)
}

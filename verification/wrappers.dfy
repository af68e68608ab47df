/** Optional values. */
module Wrappers {

  /** Python's `None`, or a present value. */
  datatype Option<+T> = None | Some(value: T)
}

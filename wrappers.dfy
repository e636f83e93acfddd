/** Failure-carrying results used throughout the model. */
module Wrappers {

  /** A value that may be absent: Python's `None` or a raised exception. */
  datatype Option<+T> = None | Some(value: T)
}

/** Failure-compatible wrapper shared by every module of the model. */
module Wrappers {

  /** A value that may be missing: the model's stand-in for Python's None and
      JavaScript's null/undefined. */
  datatype Option<+T> = None | Some(value: T)
}

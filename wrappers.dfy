/** Failure-compatible wrappers shared by the modules: a value that may be
    absent (a null cell of a table) and the outcome of a step that may raise. */
module Wrappers {

  /** A table cell that may be null (pandas NaN / None). */
  datatype Option<+T> = None | Some(value: T)

  /** The outcome of a step that either returns a value or raises an error. */
  datatype Result<+R, +E> = Success(value: R) | Failure(error: E)
}

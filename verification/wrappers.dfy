/** Failure-carrying result types shared by the whole model. */
module Wrappers {

  /** A value that may be absent (a missing cell, a failed parse). */
  datatype Option<+T> = None | Some(value: T)

  /** The outcome of a step that may raise a Python exception. */
  datatype Result<+T, +E> = Success(value: T) | Failure(error: E)
}

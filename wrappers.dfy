/** Failure-compatible wrappers shared by the other modules. */
module Wrappers {

  /** A value that may be absent: Python's `None` or a missing cell. */
  datatype Option<+T> = None | Some(value: T)

  /** The outcome of a run: its product, or the error that stopped it. */
  datatype Result<+T, +E> = Success(value: T) | Failure(error: E)
}

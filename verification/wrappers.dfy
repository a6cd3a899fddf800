/** Failure-carrying values used wherever the program catches an exception
    or a collaborator may come back empty-handed. */
module Wrappers {

  /** A value that may be missing (Python's `None`). */
  datatype Option<+T> = None | Some(value: T)

  /** The outcome of a call that may raise: the value, or the exception's text. */
  datatype Result<+R, +E> = Success(value: R) | Failure(error: E)
}

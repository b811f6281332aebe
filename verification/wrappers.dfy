/** Failure-compatible wrappers used by the rest of the model. */
module Wrappers {

  /** An optional value: a dictionary key that may be absent, a module that may not import. */
  datatype Option<+T> = None | Some(value: T)

  /** The outcome of a call that may raise: the returned value or the raised error. */
  datatype Result<+R, +E> = Success(value: R) | Failure(error: E)
}

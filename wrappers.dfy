/** Failure-compatible wrappers shared by the model. */
module Wrappers {

  /** An optional value: a pointer that may be null, a lookup that may miss. */
  datatype Option<+T> = None | Some(value: T)

  /** A value or the reason it could not be produced (the source throws instead). */
  datatype Result<+R, +E> = Success(value: R) | Failure(error: E)
}

/** Result types used by the order-creation model. */
module Wrappers {

  /** A value that may be absent, as an array `find` that matches nothing. */
  datatype Option<+T> = None | Some(value: T)

  /** Either a computed value or a typed rejection. */
  datatype Result<+R, +E> = Success(value: R) | Failure(error: E)
}

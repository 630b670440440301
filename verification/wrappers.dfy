/** Option and Result datatypes shared by the relay model. */
module Wrappers {

  /** An optional value: the model's stand-in for JavaScript's `undefined`. */
  datatype Option<+T> = None | Some(value: T)

  /** Either a value or the error a handler would throw. */
  datatype Result<+R, +E> = Success(value: R) | Failure(error: E)
}

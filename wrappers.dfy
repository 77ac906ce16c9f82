/** Option and Result, the error-path carriers used across the model. */
module Wrappers {

  datatype Option<+T> = None | Some(value: T)

  /** Success or failure; `error` carries the message the source would raise or return. */
  datatype Result<+R, +E> = Success(value: R) | Failure(error: E)
}

/** Option and Result values for the model's error paths. */
module Wrappers {

  datatype Option<+T> = None | Some(value: T)

  /** A parse either succeeds with a value or stops the process with an error. */
  datatype Result<+R, +E> = Success(value: R) | Failure(error: E)
}

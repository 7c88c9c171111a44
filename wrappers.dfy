/** Option and Result, the failure-carrying values used across the model. */
module Wrappers {

  datatype Option<+T> = None | Some(value: T)

  /** A Python call that either returns a value or raises one of the model's errors. */
  datatype Result<+R, +E> = Success(value: R) | Failure(error: E)
}

/** Option and Result, the failure-carrying values used throughout the model. */
module Wrappers {

  datatype Option<+T> = None | Some(value: T)

  /** A thrown `Error` is modelled as `Failure` carrying its message. */
  datatype Result<+R, +E> = Success(value: R) | Failure(error: E)
}

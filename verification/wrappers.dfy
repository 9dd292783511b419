/** Option and Result datatypes used throughout the relay model. */
module Wrappers {

  /** A value that may be absent, as `null` or a missing property is in the relay. */
  datatype Option<+T> = None | Some(value: T)

  /** Either a successful value or an error description. */
  datatype Result<+R, +E> = Success(value: R) | Failure(error: E)
}

/** Option and Result, the failure-carrying values used throughout the model. */
module Wrappers {

  /** A value that may be absent: C#'s `double?` and `Tuple<...>?`. */
  datatype Option<+T> = None | Some(value: T)

  /** A computation that either yields a value or throws. */
  datatype Result<+T, +E> = Success(value: T) | Failure(error: E)
}

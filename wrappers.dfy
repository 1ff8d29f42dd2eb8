/** Failure-carrying values used where the scripts raise an exception or
    fall back to a sentinel. */
module Wrappers {

  datatype Option<+T> = None | Some(value: T)

  datatype Result<+R, +E> = Success(value: R) | Failure(error: E)
}

/** Option and Result, the shapes in which Python's `None` and raised errors are modelled. */
module Wrappers {

  datatype Option<+T> = None | Some(value: T)

  datatype Result<+R, +E> = Success(value: R) | Failure(error: E)
}

/** Option and Result values standing for Go's nil pointers and (value, error) pairs. */
module Outcomes {

  datatype Option<+T> = None | Some(value: T)

  datatype Result<+T, +E> = Success(value: T) | Failure(error: E)
}

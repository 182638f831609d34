/** Option and Result, the two failure-carrying datatypes the model uses. */
module Wrappers {

  /** A value that may be absent. */
  datatype Option<+T> = None | Some(value: T)

  /** Either a value or the error that the program raises instead of producing it. */
  datatype Result<+T, +E> = Success(value: T) | Failure(error: E)
}

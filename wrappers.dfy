/** Option and Result, the two failure-carrying datatypes the model uses. */
module Wrappers {

  datatype Option<+T> = None | Some(value: T)

  /** `Failure` stands for a Ruby exception that escapes the operation. */
  datatype Result<+R, +E> = Success(value: R) | Failure(error: E)
}

/** Option and Result, the two failure-carrying datatypes the model uses. */
module Wrappers {

  datatype Option<+T> = None | Some(value: T)

  /** Success carries a value; Failure carries the error the program would raise. */
  datatype Result<+R, +E> = Success(value: R) | Failure(error: E)
}

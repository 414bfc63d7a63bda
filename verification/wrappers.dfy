/** Failure-carrying datatypes used throughout the model. */
module Wrappers {

  /** An optional value: `None` stands for Python's `None` or a failed match. */
  datatype Option<+T> = None | Some(value: T)

  /** Either a value or the exception the Python code would raise instead. */
  datatype Result<+R, +E> = Success(value: R) | Failure(error: E)
}

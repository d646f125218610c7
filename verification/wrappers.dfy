/** Failure-carrying datatypes used in place of the Python code's exceptions
    and its `return print(...)` error values. */
module Wrappers {

  /** Some value, or None where the Python code returns `None`. */
  datatype Option<+T> = None | Some(value: T)

  /** A value, or the condition under which the Python code raises or gives up. */
  datatype Result<+T, +E> = Success(value: T) | Failure(error: E)
}

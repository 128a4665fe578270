/** Option, Result and Outcome: how the model returns what the Java code signals with
    null and with exceptions. */
module Wrappers {

  datatype Option<+T> = None | Some(value: T)

  datatype Result<+R, +E> = Success(value: R) | Failure(error: E)

  /** The result of an operation that returns nothing (`void`) but may throw. */
  datatype Outcome<+E> = Pass | Fail(error: E)
}

/** Success/failure values standing in for the exceptions the Java code throws. */
module Outcomes {

  /** Either the value an operation returns, or the exception it throws. */
  datatype Result<+T, +E> = Ok(value: T) | Err(error: E)
}

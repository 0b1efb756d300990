/** The exceptions the graph operations raise, as values. */
module Errors {

  /** IllegalArgument: IllegalArgumentException; NoSuchElement: NoSuchElementException;
      Unsupported: UnsupportedOperationException; IndexOutOfBounds: an ArrayList access
      with a negative index, which the source does not guard; NegativeArraySize: an array
      allocated with a negative length. */
  datatype Error = IllegalArgument | NoSuchElement | Unsupported | IndexOutOfBounds | NegativeArraySize

  /** The outcome of an operation that returns nothing. */
  datatype Outcome = Pass | Fail(error: Error)

  /** The outcome of an operation that returns a value. */
  datatype Result<T> = Ok(value: T) | Err(error: Error)
}

/** Error kinds raised by the graph library, and the results that carry them. */
module Errors {
  /** `ValueError` for a negative vertex count, `IndexError` for a vertex out of range. */
  datatype Error = ValueError | IndexError

  /** The value of an operation that returns something or raises. */
  datatype Result<T> = Ok(value: T) | Err(error: Error)

  /** The value of an operation that returns nothing or raises. */
  datatype Outcome = Pass | Fail(error: Error)
}

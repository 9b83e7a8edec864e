/** Success and failure values for the operations that the web service reports
    as a validation error (HTTP 400/404) instead of changing the store. */
module Outcomes {

  datatype Option<+T> = None | Some(value: T)

  /** An operation that either produces a value or is rejected with an error. */
  datatype Result<+T, +E> = Ok(value: T) | Err(error: E)

  /** An operation that produces nothing but may be rejected with an error. */
  datatype Outcome<+E> = Pass | Fail(error: E)
}

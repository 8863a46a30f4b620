/** The outcome of an operation that either returns a value or ends by
 * throwing `hsds::Exception` ("Out of range access", "Vector is fixed", ...),
 * and an optional value. */
module Outcomes {
  datatype Result<T> = Success(value: T) | Failure

  datatype Option<T> = None | Some(value: T)
}

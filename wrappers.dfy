/** The outcome of an operation that may raise one of the source's exceptions. */
module Wrappers {
  datatype Result<+T, +E> = Ok(value: T) | Err(error: E)
}

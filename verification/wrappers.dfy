/** Small failure-carrying datatypes shared by the registry and the retirement queue. */
module Wrappers {

  /** An optional value, used where the registry may or may not find something. */
  datatype Option<+T> = None | Some(value: T)

  /** The outcome of a check that either succeeds with a value or reports an error value. */
  datatype Result<+T, +E> = Ok(value: T) | Err(error: E)
}

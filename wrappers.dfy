/** Optional values and results with a typed error, used for Java's null and exceptions. */
module Wrappers {

  /** `java.util.Optional`, or a reference that may be null. */
  datatype Option<+T> = None | Some(value: T)

  /** The outcome of a service call that either returns a value or throws. */
  datatype Result<+T, +E> = Ok(value: T) | Err(error: E)
}

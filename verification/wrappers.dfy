/** Optional-value and value-or-error datatypes shared by the other modules. */
module Wrappers {

  /** An optional value: a Java reference that may be null. */
  datatype Option<+T> = None | Some(value: T)

  /** A value or the error that a Java method would have thrown instead. */
  datatype Result<+T, +E> = Ok(value: T) | Err(error: E)
}

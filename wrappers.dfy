/** Optional values (Java's nullable references) and results (Java's exceptions). */
module Wrappers {

  /** A reference that may be null. */
  datatype Option<+T> = None | Some(value: T)

  /** A value, or the error the Java code would have thrown instead of returning. */
  datatype Result<+T, +E> = Ok(value: T) | Err(error: E)
}

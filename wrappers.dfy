/** Failure-compatible wrappers used by the whole model: Java's `null`
    becomes `None`, a thrown exception becomes `Err`/`Fail`. */
module Wrappers {

  datatype Option<T> = None | Some(value: T)

  datatype Result<T, E> = Ok(value: T) | Err(error: E)

  /** The outcome of a `void` Java method that may throw. */
  datatype Outcome<E> = Pass | Fail(error: E)
}

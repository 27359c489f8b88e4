/** Small failure-carrying datatypes shared by the model. */
module Wrappers {

  /** A value that may be absent; `None` plays the part of a null pointer. */
  datatype Option<T> = None | Some(value: T)

  /** A value or the error that prevented computing it. */
  datatype Result<T, E> = Ok(value: T) | Err(error: E)

  /** Success of an operation that returns nothing, or the error it raised. */
  datatype Outcome<E> = Pass | Fail(error: E)
}

/** Small failure-carrying datatypes shared by the rest of the model. */
module Wrappers {

  /** An optional value; `None` plays the role of a null pointer or of `end()`. */
  datatype Option<+T> = None | Some(value: T)

  /** A value or an error, as the source's `Result<T>` / `Promise::set_error`. */
  datatype Result<+T, +E> = Ok(value: T) | Err(error: E)

  /** Success without a value, or an error: the source's `Status`. */
  datatype Outcome<+E> = Pass | Fail(error: E)
}

/** Option and Result, used for the source's null references and exceptions. */
module Wrappers {

  /** A nullable reference: None stands for null. */
  datatype Option<+T> = None | Some(value: T)

  /** A call that either returns a value or throws. */
  datatype Result<+T, +E> = Ok(value: T) | Err(error: E)
}

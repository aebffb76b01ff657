/** Option and Result datatypes shared by the model. */
module Wrappers {

  /** A value that may be missing (a pandas null cell, an empty selection). */
  datatype Option<+T> = None | Some(value: T)

  /** The outcome of a step that can raise: a value, or the error it raises. */
  datatype Result<+T, +E> = Ok(value: T) | Err(error: E)
}

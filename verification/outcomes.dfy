/** The two wrapper types the model uses for the add-on's nullable values and thrown errors. */
module Outcomes {

  /** A value that may be absent: a null pointer or handle is `None`. */
  datatype Option<+T> = None | Some(value: T)

  /** The outcome of an exported add-on call: a value, or the error it throws to JavaScript. */
  datatype Result<+T, +E> = Ok(value: T) | Err(error: E)
}

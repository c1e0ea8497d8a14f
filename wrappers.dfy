/** Option and Result values shared by the TinyLink model. */
module Wrappers {

  /** A value that may be absent: a JSON field left out, a row not found. */
  datatype Option<+T> = None | Some(value: T)

  /** The outcome of a store operation that can be refused. */
  datatype Result<+T, +E> = Ok(value: T) | Err(error: E)
}

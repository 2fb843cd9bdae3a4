/** Option and Result values used for the parsed cluster count and for the
    error paths of the input handling. */
module Wrappers {

  /** A value that may be absent; `None` stands for a count that did not
      parse to a number. */
  datatype Option<+T> = None | Some(value: T)

  /** The outcome of an operation that can fail with an error of type `E`. */
  datatype Result<+R, +E> = Ok(value: R) | Err(error: E)
}

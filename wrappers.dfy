/** Option and Result, the two Rust enums the lexer's interface is built from. */
module Wrappers {

  /** Rust's `Option<T>`: the iterator's "no further item". */
  datatype Option<+T> = None | Some(value: T)

  /** Rust's `Result<T, E>`: a token or a tokenize error. */
  datatype Result<+T, +E> = Ok(value: T) | Err(error: E)
}

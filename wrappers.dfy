/** Option and Result: the "no row" answer of a query and the error of a failed commit. */
module Wrappers {

  /** `None` stands for the Python `None` that `.first()` returns on an empty result. */
  datatype Option<+T> = None | Some(value: T)

  /** The outcome of an operation that may raise. */
  datatype Result<+R, +E> = Ok(value: R) | Err(error: E)
}

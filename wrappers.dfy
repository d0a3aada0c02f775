/** Option and Result, the shapes the rest of the model uses for Python's
    `None` returns and for its error strings. */
module Wrappers {

  datatype Option<+T> = None | Some(value: T)

  datatype Result<+T, +E> = Ok(value: T) | Err(error: E)
}

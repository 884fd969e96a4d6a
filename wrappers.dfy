/** Option and Result, the two outcome shapes the model uses in place of
    the original's sentinel values and printed error messages. */
module Wrappers {

  datatype Option<+T> = None | Some(value: T)

  datatype Result<+T, +E> = Ok(value: T) | Err(error: E)
}

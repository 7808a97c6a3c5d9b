// Option and Result types used across the model for Python's None and for
// exceptions raised by the source.
module Wrappers {

  datatype Option<+T> = None | Some(value: T)

  datatype Result<+T, +E> = Ok(value: T) | Err(error: E)
}

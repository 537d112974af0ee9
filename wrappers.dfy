/** Optional values and results with an error, used throughout the model. */
module Wrappers {

  /** A value that may be absent (Python's `Optional[...]`, `None`). */
  datatype Option<+T> = None | Some(value: T)

  /** The outcome of a handler: its response, or the error it raises. */
  datatype Result<+T, +E> = Ok(value: T) | Err(error: E)
}

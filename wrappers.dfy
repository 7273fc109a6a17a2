/** Optional values and error results shared by the other modules. */
module Wrappers {

  datatype Option<+T> = None | Some(value: T)

  /** The outcome of a request handler: a value, or the error the handler raises. */
  datatype Result<+T, +E> = Ok(value: T) | Err(error: E)
}

/** Option and Result, used for the source's absent values and thrown exceptions. */
module Wrappers {
  datatype Option<T> = None | Some(value: T)

  datatype Result<T, E> = Ok(value: T) | Err(error: E)
}

/** Optional values, for the source's `None`, and results that carry an
    error message instead of a value. */
module Wrappers {

  datatype Option<T> = None | Some(value: T)

  datatype Result<T> = Ok(value: T) | Err(error: string)
}

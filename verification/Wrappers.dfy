/** Optional values and fallible results, shared by every other module. */
module Wrappers {

  datatype Option<+T> = None | Some(value: T)

  /** The error side carries a value where the caller can tell errors apart, and `()` where it cannot. */
  datatype Result<+T, +E> = Ok(value: T) | Err(error: E)
}

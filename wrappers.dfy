/** Optional values, used where a search may find nothing. */
module Wrappers {

  datatype Option<T> = None | Some(value: T)

  /** A value or the reason it could not be produced. */
  datatype Result<T, E> = Ok(value: T) | Err(error: E)
}

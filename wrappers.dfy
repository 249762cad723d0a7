/** Optional values and results with an error value, for the absent children, failed
    lookups and uncaught exceptions of the file browser. */
module Wrappers {

  datatype Option<+T> = None | Some(value: T)

  datatype Result<+T, +E> = Ok(value: T) | Err(error: E)
}

/** Optional values and results with an error, used for missing files,
    unreadable files and failed searches. */
module Wrappers {

  datatype Option<+T> = None | Some(value: T)

  datatype Result<+T, +E> = Ok(value: T) | Err(error: E)
}

/** Optional values and results, used where the Go code returns a nil
    pointer, a comma-ok pair or an error. */
module Wrappers {

  datatype Option<+T> = None | Some(value: T)

  datatype Result<+T, +E> = Ok(value: T) | Err(error: E)
}

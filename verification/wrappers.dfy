/** Optional values and success-or-error results, used where the modelled code
    reads a possibly-missing field or throws. */
module Wrappers {

  datatype Option<+T> = None | Some(value: T)

  datatype Result<+T, +E> = Ok(value: T) | Err(error: E)
}

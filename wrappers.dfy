/** Optional values and value-or-error results, standing for Go's nil
    results and its (value, error) return pairs. */
module Wrappers {

  datatype Option<+T> = None | Some(value: T)

  datatype Result<+T, +E> = Ok(value: T) | Err(error: E)
}

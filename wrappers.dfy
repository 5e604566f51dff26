/** Optional values and results with an error, used where the modelled Python code
    returns None or raises an exception that its caller handles. */
module Wrappers {

  datatype Option<+T> = None | Some(value: T)

  datatype Result<+T, +E> = Ok(value: T) | Err(error: E)
}

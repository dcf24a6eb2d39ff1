/** Failure-carrying results: the model's stand-in for the exceptions the
    identifier code throws. */
module Wrappers {

  datatype Option<+T> = None | Some(value: T)

  datatype Result<+T, +E> = Ok(value: T) | Err(error: E)
}

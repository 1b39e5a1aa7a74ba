/** Failure-compatible wrappers shared by every module: a possibly absent value
    and a value-or-error outcome. */
module Wrappers {

  datatype Option<+T> = None | Some(value: T)

  datatype Result<+T, +E> = Ok(value: T) | Err(error: E)
}

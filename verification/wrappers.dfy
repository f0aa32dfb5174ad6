/** Option and Result, used for the values the controller may lack and for the
    exceptions the source lets escape. */
module Wrappers {
  datatype Option<+T> = None | Some(value: T)

  datatype Result<+T, +E> = Ok(value: T) | Err(error: E)
}

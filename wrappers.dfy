/** Option and Result values, used where the scripts return "nothing" or raise an exception. */
module Wrappers {

  datatype Option<+T> = None | Some(value: T)

  /** `Ok(value)` for a normal return, `Err(error)` for an exception that propagates. */
  datatype Result<+T, +E> = Ok(value: T) | Err(error: E)
}

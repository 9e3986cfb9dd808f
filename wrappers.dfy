/** Failure-compatible wrappers shared by the catalog model. */
module Wrappers {

  /** PHP's `false` / unset versus a present value. */
  datatype Option<+T> = None | Some(value: T)

  /** A value or the error a PHP method would throw instead. */
  datatype Result<+R, +E> = Ok(value: R) | Err(error: E)
}

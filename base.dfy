/** Option and Result, the failure-carrying values shared by every module. */
module Base {

  /** An absent or present value: JavaScript's `null`/`undefined` versus a value. */
  datatype Option<+T> = None | Some(value: T)

  /** The value of a function that may throw: `Err` carries what was thrown. */
  datatype Result<+T, +E> = Ok(value: T) | Err(error: E)
}

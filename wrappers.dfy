/** Option and Result values standing in for Python's `None`-or-value returns and raised exceptions. */
module Wrappers {

  datatype Option<+T> = None | Some(value: T)

  /** `Ok` is a normal return, `Err` a raised exception carrying its message. */
  datatype Result<+T> = Ok(value: T) | Err(message: string)
}

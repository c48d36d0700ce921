/** Failure-carrying results shared by every codec variant.

    The Python code signals failure in two ways: by returning `None` and by
    raising an exception.  `Option` models the first, `Result` the second; an
    `Exception` keeps the Python exception class and its message so that the
    model can say WHICH error a guard raises. */
module Outcomes {

  datatype Option<+T> = None | Some(value: T)

  /** A Python exception: its class and the message passed to it. */
  datatype Exception =
    | ValueError(message: string)
    | OverflowError(message: string)
    | TypeError(message: string)
    | IndexError(message: string)

  /** Either a returned value or a raised exception. */
  datatype Result<+T> = Ok(value: T) | Raise(exception: Exception)
}

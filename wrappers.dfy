/** Option and Result, and the Python exceptions the modelled code can raise. */
module Wrappers {

  datatype Option<+T> = None | Some(value: T)

  /** The uncaught Python exceptions that the modelled expressions can raise. */
  datatype PyError =
    | IndexError           // a list index out of range (`[-2]`, `[1]`)
    | UnboundLocalError    // a loop variable read before any iteration assigned it

  datatype Result<+R> = Ok(value: R) | Err(error: PyError)
}

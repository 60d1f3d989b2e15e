/** Failure-compatible results, standing for the exceptions that the TypeScript code throws. */
module Wrappers {

  datatype Option<+T> = None | Some(value: T)

  datatype Error = DivisionByZero | QuoteReverted | LengthMismatch | InvalidFee

  datatype Result<+T> = Ok(value: T) | Err(error: Error)
}

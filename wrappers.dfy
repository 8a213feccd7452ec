/** Option and Result, and the exceptions the library raises. */
module Wrappers {

  datatype Option<+T> = None | Some(value: T)

  /** The exceptions of the library, plus two outcomes that are not exceptions:
      `ReturnedTypeError` is `Element.__add__` handing back the TypeError class as
      its value instead of raising it, and `FuelExhausted` is a simplification that
      did not reach its fixed point within the allowed number of passes. */
  datatype Error =
    | TypeError
    | ValueError
    | UnknownVariableName
    | VariableNameCollision
    | ReturnedTypeError
    | FuelExhausted

  datatype Result<+T> = Success(value: T) | Failure(error: Error)
}

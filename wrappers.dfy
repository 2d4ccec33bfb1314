/** Option and Result values, and the exception kinds the modelled code throws. */
module Wrappers {

  datatype Option<+T> = None | Some(value: T)

  /** The C++ standard exceptions (and Python errors) raised by the modelled code. */
  datatype Error =
    | LogicError
    | InvalidArgument
    | OutOfRange
    | RuntimeError
    | TypeError

  datatype Result<+T> = Success(value: T) | Failure(error: Error)
}

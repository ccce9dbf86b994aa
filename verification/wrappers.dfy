/** Option and Result values for operations that can fail or find nothing. */
module Wrappers {

  datatype Option<+T> = None | Some(value: T)

  /** The error kinds raised by the modelled code (each one is an exception in the source). */
  datatype Error =
    | WrongChannelCount     // a pixel array whose third dimension is not 4
    | IndexOutOfRange       // an array access outside its bounds
    | TooFewSteps           // a sphere tessellation with fewer than three steps

  datatype Result<+T> = Success(value: T) | Failure(error: Error)
}

/** Failure-carrying results shared by every module: a Kotlin operation that throws is
    modelled as a function or method that returns `Err` with the reason. */
module Outcome {

  datatype Result<+T, +E> = Ok(value: T) | Err(error: E)

  datatype Option<+T> = None | Some(value: T)

  /** The magnitude of an integer, used by the integer helpers of several modules. */
  function Abs(x: int): nat {
    if x < 0 then -x else x
  }
}

/** Failure-compatible result types used wherever the source throws or reports an error. */
module Wrappers {

  datatype Option<+T> = None | Some(value: T)

  /** The exceptions the core raises, by the condition that raises them. */
  datatype Error =
    | InvalidArgument(message: string)
    | InvalidHeader
    | InvalidVersion
    | Truncated
    | Malformed
    | OutOfRange

  datatype Result<+T> = Success(value: T) | Failure(error: Error) {
    predicate IsFailure() { Failure? }

    function PropagateFailure<U>(): Result<U>
      requires Failure?
    {
      Failure(error)
    }

    function Extract(): T
      requires Success?
    {
      value
    }
  }
}

/** Failure-compatible result types shared by the model, and the Python
    exceptions that the scripts can raise. */
module Wrappers {

  datatype Option<+T> = None | Some(value: T)

  datatype Result<+T, +E> = Success(value: T) | Failure(error: E) {
    predicate IsFailure() {
      Failure?
    }

    function PropagateFailure<U>(): Result<U, E>
      requires Failure?
    {
      Failure(error)
    }

    function Extract(): T
      requires Success?
    {
      value
    }
  }

  /** The exceptions the modelled code raises.  Python attaches only a
      message to them; the model records the offending input instead. */
  datatype PyException =
    | UnpackError(token: string)  // `a, b = t.split(sep)` on a token without exactly one `sep`
    | ZeroDivisionError           // a float division by zero
}

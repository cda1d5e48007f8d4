/** Option and Result, the failure-compatible wrappers the rest of the model uses
    for "absent" lookups and for the source's run-time panics. */
module Wrappers {

  /** A value that may be absent; stands for the source's nil-or-pointer results. */
  datatype Option<+T> = None | Some(value: T)

  /** Either a computed value or the fault that stopped the computation. */
  datatype Result<+T, +E> = Success(value: T) | Failure(error: E) {

    predicate IsFailure() {
      Failure?
    }

    function PropagateFailure<U>(): Result<U, E>
      requires Failure?
    {
      Failure(error)
    }

    function Extract(): T
      requires Success?
    {
      value
    }
  }
}

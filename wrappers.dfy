/** Option and Result, the failure-compatible wrappers the other modules use
    to model Python exceptions and missing dictionary entries. */
module Wrappers {

  datatype Option<+T> = None | Some(value: T)

  datatype Result<+T, +E> = Success(value: T) | Failure(error: E) {
    predicate IsFailure() { Failure? }

    function PropagateFailure<U>(): Result<U, E>
      requires Failure?
    {
      Failure(error)
    }

    function Extract(): T
      requires Success?
    {
      value
    }
  }

  /** The Python exceptions the modelled code can raise. */
  datatype Exception = AssertionError | ZeroDivisionError | IndexError | KeyError | TypeError | RuntimeError
}

/** Failure-compatible result types used by every buffer operation. */
module Wrappers {

  /** An optional argument: `None` stands for an argument the caller left out. */
  datatype Option<+T> = None | Some(value: T) {

    /** The carried value, or `default` when the argument was left out. */
    function GetOr(default: T): T {
      match this
      case Some(v) => v
      case None => default
    }
  }

  /** Either a value or the error an operation threw instead. */
  datatype Result<+T, +E> = Success(value: T) | Failure(error: E) {

    predicate IsFailure() {
      Failure?
    }

    function PropagateFailure<U>(): Result<U, E>
      requires Failure?
    {
      Failure(error)
    }

    function Extract(): T
      requires Success?
    {
      value
    }
  }

  /** A check that either passes or fails with an error, carrying no value. */
  datatype Outcome<+E> = Pass | Fail(error: E)
}

/**
 * The two failure kinds a buffer can raise. The source tags them with the codes
 * `ERR_BUFFER_OUT_OF_BOUNDS` and `EBUFFLIMIT`; the model tells them apart by constructor.
 */
module Errors {

  datatype Error = OutOfBounds | LimitExceeded
}

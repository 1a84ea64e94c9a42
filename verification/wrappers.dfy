/** Failure-compatible result types used by every decoder in the model.
    An exception thrown by the decoder becomes a `Failure` carrying an
    `Errors.Error`; `:-` propagates it exactly as the exception would abort
    the parse. */
module Wrappers {

  /** A value that may be absent: the model of a C# nullable (`bool?`,
      `string?`, an `out` value of `TryGetValue`). */
  datatype Option<+T> = None | Some(value: T)

  /** Either a decoded value or the error that aborted decoding. */
  datatype Result<+R, +E> = Success(value: R) | Failure(error: E) {

    predicate IsFailure() {
      Failure?
    }

    function PropagateFailure<U>(): Result<U, E>
      requires Failure?
    {
      Failure(error)
    }

    function Extract(): R
      requires Success?
    {
      value
    }
  }
}

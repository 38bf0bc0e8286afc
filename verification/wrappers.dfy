/** Optional values and fallible results.

    The Swift source traps on a failed forced lookup (`dict[key]!`) or an
    out-of-range index; the model returns a `Failure` carrying what went
    wrong instead, so every error path is explicit.
 */
module Wrappers {

  datatype Option<+T> = None | Some(value: T)

  datatype Result<+T, +E> = Success(value: T) | Failure(error: E) {

    predicate IsFailure() {
      Failure?
    }

    function PropagateFailure<U>(): Result<U, E>
      requires Failure?
    {
      Failure(error)
    }

    /** The value a `:-` binding takes on success. */
    function Extract(): T
      requires Success?
    {
      value
    }
  }
}

/** Failure-compatible wrappers used for the source's `Option` and `Result` returns. */
module Results {

  datatype Option<+T> = None | Some(value: T)

  /** `Success(v)` or `Failure(e)`; usable with `:-`. */
  datatype Result<+T, +E> = Success(value: T) | Failure(error: E) {

    predicate IsFailure() {
      Failure?
    }

    function PropagateFailure<U>(): Result<U, E>
      requires Failure?
    {
      Failure(error)
    }

    function Extract(): T
      requires Success?
    {
      value
    }
  }
}

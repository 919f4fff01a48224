/** Success/failure values standing in for Go's `(value, error)` pairs and nil-able values. */
module Results {

  /** A value that may be absent (a nil pointer or nil error in Go). */
  datatype Option<+T> = None | Some(value: T)

  /** Either a value or the error that prevented computing it; usable with `:-`. */
  datatype Result<+T, +E> = Success(value: T) | Failure(error: E) {

    predicate IsFailure() {
      Failure?
    }

    function PropagateFailure<U>(): Result<U, E>
      requires Failure?
    {
      Failure(error)
    }

    function Extract(): T
      requires Success?
    {
      value
    }
  }
}

/** Failure-carrying results used to stand for Python's exceptions and
    sentinel returns. */
module Results {

  datatype Option<+T> = None | Some(value: T)

  datatype Result<+T, +E> = Success(value: T) | Failure(error: E)
}

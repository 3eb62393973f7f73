/** Values that may be absent, and results that may be errors. */
module Wrappers {

  /** A pointer that may be nil, read as the value it points to. */
  datatype Option<+T> = None | Some(value: T)

  /** What a Go function returning `(value, error)` hands back. */
  datatype Result<+T, +E> = Success(value: T) | Failure(error: E)
}

/** Failure-carrying return values shared by the airdrop modules. */
module Results {

  /** A value that may be absent (a Go panic or a missing value). */
  datatype Option<+T> = None | Some(value: T)

  /** A Go `(value, error)` pair: either a value or the error returned in its place. */
  datatype Result<+T, +E> = Success(value: T) | Failure(error: E)
}

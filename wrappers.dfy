/** Failure-carrying values used for Go's `(value, error)` returns and for SQL NULL. */
module Wrappers {

  /** `None` stands for Go's nil error or an SQL NULL, `Some` for a present value. */
  datatype Option<+T> = None | Some(value: T)

  /** A Go `(value, error)` pair in which exactly one side is meaningful. */
  datatype Result<+T, +E> = Ok(value: T) | Err(error: E)
}

/** Option, Result, byte and Time: the value types the other modules share. */
module Wrappers {

  /** A value that may be absent; also stands for a Go `error` that may be nil. */
  datatype Option<+T> = None | Some(value: T)

  /** A Go `(value, error)` pair in which exactly one side is meaningful. */
  datatype Result<+T, +E> = Ok(value: T) | Err(error: E)

  /** One byte of a Go `[]byte`. */
  newtype byte = b: int | 0 <= b < 256

  /** A time.Time, left uninterpreted. */
  type Time = int
}

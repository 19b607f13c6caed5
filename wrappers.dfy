/** Option and Result: Go's nil-able `*T` values and (value, error) pairs. */
module Wrappers {

  /** A Go `*T` value that may be nil. */
  datatype Option<+T> = None | Some(value: T)

  /** A Go `(T, error)` pair: either a value and a nil error, or an error. */
  datatype Result<+T> = Ok(value: T) | Err
}

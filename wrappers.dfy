/** Option and Outcome: the null-or-value and pass-or-panic shapes used by the column model. */
module Wrappers {

  datatype Option<+T> = None | Some(value: T)

  /** The result of an operation that the Go code aborts with a panic. */
  datatype Outcome = Pass | Fail(error: string)

  /** A Go byte of the data buffer (the null bitmap's bytes are bv8, for its bit arithmetic). */
  type Byte = x: int | 0 <= x < 256
}

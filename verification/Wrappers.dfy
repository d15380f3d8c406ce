/** The failure-carrying datatypes shared by the other modules. */
module Wrappers {

  /** A nullable value: a Go nil pointer, an SQL NULL, an absent header. */
  datatype Option<+T> = None | Some(value: T)

  /** A Go `(value, error)` pair of which exactly one half is meaningful. */
  datatype Result<+T, +E> = Ok(value: T) | Err(error: E)
}

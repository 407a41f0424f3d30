/** The two result types every component shares. */
module Wrappers {

  datatype Option<+T> = None | Some(value: T)

  /** A value, or the error the source throws. */
  datatype Result<+T, +E> = Ok(value: T) | Err(error: E)
}

/** Option and Result, the two wrappers every other module uses for absence and failure. */
module Wrappers {

  /** A value that may be absent: pandas' NaN/None, or a variable not yet bound. */
  datatype Option<+T> = None | Some(value: T)

  /** The outcome of a Python call that either returns or raises. */
  datatype Result<+T, +E> = Ok(value: T) | Err(error: E)
}

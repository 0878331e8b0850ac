/** Option and Result, the two failure-carrying datatypes the model uses. */
module Wrappers {

  /** A cell or field that may be missing (pandas' NaN / NaT). */
  datatype Option<+T> = None | Some(value: T)

  /** The outcome of an operation that can raise. */
  datatype Result<+R, +E> = Ok(value: R) | Err(error: E)
}

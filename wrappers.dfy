/** Option and Result, the two failure-carrying datatypes the scanner model uses. */
module Wrappers {

  datatype Option<+T> = None | Some(value: T)

  /** The outcome of a literal validator: a decoded value or the one error kind it diagnosed. */
  datatype Result<+T, +E> = Ok(value: T) | Err(error: E)
}

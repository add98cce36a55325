/** Option and Result used by the model. */
module Wrappers {

  /** An optional value: a nullable column or an omitted request field. */
  datatype Option<+T> = None | Some(value: T)

  /** The outcome of an operation that may fail with an error value. */
  datatype Result<+T, +E> = Ok(value: T) | Err(error: E)
}

/** Stock results: Option stands for Go's nil-able pointers and missing map entries, Result for a value or an error. */
module Wrappers {

  datatype Option<+T> = None | Some(value: T)

  datatype Result<+T, +E> = Ok(value: T) | Err(error: E)
}

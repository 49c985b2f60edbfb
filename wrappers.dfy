/** Success/failure results, used for the exceptions the decoder raises. */
module Wrappers {

  datatype Result<+T, +E> = Ok(value: T) | Err(error: E)
}

/** Failure-carrying wrappers used by the codec: an optional value and a
    value-or-error result standing for a Java method that returns or throws. */
module Wrappers {

  datatype Option<+T> = None | Some(value: T)

  datatype Result<+T, +E> = Ok(value: T) | Err(error: E)
}

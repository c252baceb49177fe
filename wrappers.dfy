/** Return values shared by the decoder and the reader: an optional value for
    PHP's `string|false` results, and a result type for operations that throw. */
module Wrappers {

  datatype Option<+T> = None | Some(value: T)

  /** The two exception classes the decoder throws. */
  datatype Exception = InvalidArgumentException | RuntimeException

  /** A value, or the exception the PHP code throws instead of returning it. */
  datatype Result<+T> = Ok(value: T) | Err(error: Exception)
}

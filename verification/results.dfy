/** Failure-carrying wrappers shared by every module of the model. */
module Results {

  /** A value that may be absent: Java's nullable references. */
  datatype Option<+T> = None | Some(value: T)

  /** The outcome of an operation that may throw: the value or the exception it raised. */
  datatype Result<+T, +E> = Ok(value: T) | Err(error: E)

  /** Bytes on the wire, as unsigned octets. */
  type Byte = b: int | 0 <= b < 256
}

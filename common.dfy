/** Failure-carrying wrappers and the byte type shared by every module of the model. */
module Common {

  /** A value that may be absent: a null node, a missing key, a read that failed. */
  datatype Option<+T> = None | Some(value: T)

  /** A value or the error that the source raises instead of producing it. */
  datatype Result<+T, +E> = Ok(value: T) | Err(error: E)

  /** An unsigned 8-bit value, as file contents and payloads are made of. */
  newtype byte = b: int | 0 <= b < 256
}

/** Failure-carrying wrappers shared by the ledger and the toy hash. */
module Common {

  /** A value that may be absent: a missing key of a JSON record, or a result
      that Python would have replaced by an exception. */
  datatype Option<+T> = None | Some(value: T)

  /** The outcome of an operation that can be refused with a reason. */
  datatype Result<+T, +E> = Ok(value: T) | Err(error: E)
}

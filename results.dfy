/** Failure-carrying values shared by every module of the model. */
module Results {

  /** A value that may be absent: JavaScript's `null` or `undefined` where the source allows them. */
  datatype Option<T> = None | Some(value: T)

  /** The outcome of a call that may throw: `Err` carries the thrown error's message. */
  datatype Result<T> = Ok(value: T) | Err(message: string)
}

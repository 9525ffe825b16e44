/** Failure-carrying return values shared by the task store and the credential table. */
module Outcomes {

  /** A value that may be missing, as a JavaScript `find` that can come back `undefined`. */
  datatype Option<+T> = None | Some(value: T)

  /** Either the new value an operation produced or the reason it refused. */
  datatype Result<+T, +E> = Ok(value: T) | Err(error: E)
}

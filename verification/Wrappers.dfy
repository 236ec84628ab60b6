/** Results that may be absent, results that may fail, and runs that may abort. */
module Wrappers {
  datatype Option<+T> = None | Some(value: T)

  datatype Result<+T, +E> = Ok(value: T) | Err(error: E)

  /** A run of code that panics has no value. */
  datatype Outcome<+T> = Aborted | Finished(value: T)
}

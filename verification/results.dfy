/** Failure-carrying values shared by every module of the model: a JavaScript
    value that may be `null`/`undefined`, a check that passes or reports what
    it found, and a parse that yields a value or an error. */
module Results {

  /** A present value, or JavaScript's `null`/`undefined`. */
  datatype Option<+T> = None | Some(value: T)

  /** A validation step: it passes, or fails carrying what it reports. */
  datatype Outcome<+E> = Pass | Fail(error: E)

  /** A parse: a value, or the reason it was refused. */
  datatype Result<+R, +E> = Ok(value: R) | Err(error: E)
}

/** Failure-carrying values used across the model in place of JavaScript's
    `undefined` fields and thrown exceptions. */
module Wrappers {

  /** A value that may be absent (`undefined` or `null` in the source). */
  datatype Option<+T> = None | Some(value: T)

  /** The outcome of a library call that either resolves with a value or rejects. */
  datatype Result<+R, +E> = Ok(value: R) | Err(error: E)

  /** A check that either passes or fails with an error: a multer callback
      `cb(null, true)` versus `cb(err)`. */
  datatype Outcome<+E> = Pass | Fail(error: E)
}

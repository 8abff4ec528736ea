/** Failure-carrying datatypes shared by the essay-corrector model. */
module Wrappers {

  /** A value that may be missing: JavaScript's `undefined`, a regex that did not match,
      or a parse that failed. */
  datatype Option<+T> = None | Some(value: T)

  /** The outcome of a computation that can throw. */
  datatype Result<+T, +E> = Ok(value: T) | Err(error: E)
}

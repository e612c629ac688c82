/** Failure-carrying result types shared by the modules of the model. */
module Wrappers {

  /** Presence or absence of a value (the source's `undefined` / `null` results). */
  datatype Option<+T> = None | Some(value: T)

  /** A computation that yields a value or fails with an error (a thrown `Error`). */
  datatype Result<+T, +E> = Success(value: T) | Failure(error: E)

  /** A computation that yields nothing or fails with an error. */
  datatype Outcome<+E> = Pass | Fail(error: E)
}

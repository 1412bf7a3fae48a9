/** Failure-aware result types used where the source throws. */
module Outcomes {

  datatype Option<+T> = None | Some(value: T)

  /** A computation that either yields a value or reports the error the source throws. */
  datatype Result<+T, +E> = Success(value: T) | Failure(error: E)

  /** A state change that either succeeded or was refused with an error. */
  datatype Outcome<+E> = Pass | Fail(error: E)
}

/** Failure-carrying result types shared by the parsers and the game model. */
module Outcomes {

  /** A value that may be absent: a failed stream extraction, a missing marker. */
  datatype Option<+T> = None | Some(value: T)

  /** The outcome of an operation that either yields a value or reports why it could not. */
  datatype Result<+T, +E> = Ok(value: T) | Err(error: E)
}

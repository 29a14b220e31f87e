/** Failure-compatible result types used where the program either produces a
    value or stops (the program's fatal exits become typed failures here). */
module Wrappers {

  /** A value that may be absent, e.g. the position of a character that does not occur. */
  datatype Option<+T> = None | Some(value: T)

  /** Either a computed value or the reason the computation was abandoned. */
  datatype Result<+R, +E> = Success(value: R) | Failure(error: E)
}

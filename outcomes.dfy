/** The error and result types shared by the cache core. */
module Outcomes {

  /** The only failure the cache core raises itself: a packed-key index out of range. */
  datatype Error = RangeError

  /** The outcome of an operation that changes state and returns nothing. */
  datatype Outcome = Pass | Fail(error: Error)

  /** The outcome of an operation that produces a value. */
  datatype Result<T> = Success(value: T) | Failure(error: Error)

  datatype Option<T> = None | Some(value: T)
}

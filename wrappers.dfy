/** Failure-carrying result types used in place of the Java exceptions and
    null returns of the modelled code. */
module Wrappers {

  /** A value that may be absent: `HashMap.get` returning null, or a number
      that does not parse. */
  datatype Option<+T> = None | Some(value: T)

  /** The outcome of an operation that either produces a value or throws. */
  datatype Result<+T, +E> = Success(value: T) | Failure(error: E)
}

/** Failure-carrying values used where the script raises instead of returning. */
module Wrappers {

  /** An optional value: `None` stands for the script's "no such element" crash. */
  datatype Option<+T> = None | Some(value: T)

  /** A result that is either a value or the reason the script would stop. */
  datatype Result<+R, +E> = Success(value: R) | Failure(error: E)
}

/** Optional and failing values, for the places where the script passes
    `undefined` or a library reports an error. */
module Wrappers {

  /** A value that may be absent (`undefined` in the script). */
  datatype Option<+T> = None | Some(value: T)

  /** The outcome of a foreign call: a value, or the error it reported. */
  datatype Result<+R, +E> = Success(value: R) | Failure(error: E)
}

/** Optional values and results, used where the board answers "absent" or fails. */
module Options {

  /** A value or its absence; stands for Kotlin's nullable `T?`. */
  datatype Option<+T> = None | Some(value: T)

  /** The outcome of an operation that may fail with an error instead of a value. */
  datatype Result<+R, +E> = Success(value: R) | Failure(error: E)
}

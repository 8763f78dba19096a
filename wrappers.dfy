/** Optional values and results with an error, used for missing cells and
    for the loading errors that the source raises. */
module Wrappers {

  /** A cell or a value that may be missing (pandas' NaN / NaT / None). */
  datatype Option<+T> = None | Some(value: T)

  /** The outcome of an operation that can raise. */
  datatype Result<+T, +E> = Success(value: T) | Failure(error: E)
}

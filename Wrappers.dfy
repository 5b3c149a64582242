/** Optional values (a pandas cell that may be missing) and results that may fail. */
module Wrappers {

  /** A cell that is either present or missing (None, NaN or NaT in the frame). */
  datatype Option<+T> = None | Some(value: T)

  /** The outcome of a request handler: a JSON-ready value, or the exception it raises. */
  datatype Result<+R, +E> = Success(value: R) | Failure(error: E)
}

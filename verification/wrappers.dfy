/** Failure-carrying values used across the model: Python's `None` and raised exceptions. */
module Wrappers {

  /** A value that may be absent, as Python's `Optional[T]` parameters are. */
  datatype Option<+T> = None | Some(value: T)

  /** Either a computed value or the exception the source would raise instead. */
  datatype Result<+R, +E> = Success(value: R) | Failure(error: E)

  /** The Python exceptions the downloader can raise before any file is fetched. */
  datatype Exception = ValueError(message: string) | KeyError(key: string)
}

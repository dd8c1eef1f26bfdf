/** Option and Result: Python's `None`-or-value and the error returns of the scraper. */
module Wrappers {

  datatype Option<+T> = None | Some(value: T)

  datatype Result<+T, +E> = Success(value: T) | Failure(error: E)
}

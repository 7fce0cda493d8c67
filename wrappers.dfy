/** Failure-as-value results: `Option` for the tool's `null` returns, `Result` for its thrown errors. */
module Wrappers {
  datatype Option<T> = None | Some(value: T)

  datatype Result<T, E> = Success(value: T) | Failure(error: E)
}

/** The Some/None datatype used for Python's `Optional` results and `None` returns, and a result-or-error datatype for raised exceptions. */
module Wrappers {
  datatype Option<+T> = None | Some(value: T)

  datatype Result<+T, +E> = Ok(value: T) | Err(error: E)
}

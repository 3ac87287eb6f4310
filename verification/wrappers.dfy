/** Failure-carrying values used across the model: `Option` for the per-file
    skip conditions (a `ValueError` the source catches) and `Result` for the
    fatal argument errors (an exception the source lets escape). */
module Wrappers {

  datatype Option<+T> = None | Some(value: T)

  datatype Result<+R, +E> = Success(value: R) | Failure(error: E)
}

/** Failure-carrying values used throughout the model: an optional value and
    a value-or-error result, the two shapes Go expresses with `(T, error)`
    pairs and zero values. */
module Wrappers {

  datatype Option<+T> = None | Some(value: T)

  datatype Result<+T, +E> = Success(value: T) | Failure(error: E)
}

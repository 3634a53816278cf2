/** The two sum types the estimator uses: an optional value (what
    `Iterator::next` returns) and a value-or-error (what the validating
    constructor returns). */
module Wrappers {

  datatype Option<+T> = None | Some(value: T)

  datatype Result<+T, +E> = Ok(value: T) | Err(error: E)
}

/** The optional-value datatype used throughout the model for JavaScript's
    `null` results (a missing score, a number that is not finite). */
module Wrappers {
  datatype Option<+T> = None | Some(value: T)
}

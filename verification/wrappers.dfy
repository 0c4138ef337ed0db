/** Failure-compatible wrapper used where the source raises instead of returning. */
module Wrappers {

  /** Some value, or None where the source would raise. */
  datatype Option<+T> = None | Some(value: T)
}

module Wrappers {
  /** A value that may be missing: Python's None, an absent field, or a refusal. */
  datatype Option<+T> = None | Some(value: T)

  /** A quotient reported exactly, by its two parts. */
  datatype Ratio = Ratio(numerator: int, denominator: int)
}

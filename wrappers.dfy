/** Option for lookups that may find nothing (a null pointer in the C source), and the positive integers of the header constants. */
module Wrappers {
  datatype Option<+T> = None | Some(value: T)

  /** The type of the header constants whose values are not part of this model (only their positivity is used). */
  type Positive = x: int | x > 0 witness 1
}

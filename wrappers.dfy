/** The optional value used throughout the model. */
module Wrappers {

  /** `None` stands for Python's `None`, a missing dictionary key, or (as a rank) `float('inf')`. */
  datatype Option<+T> = None | Some(value: T)
}

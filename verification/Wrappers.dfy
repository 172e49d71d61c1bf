/** The optional value and the integer bound used throughout the model. */
module Wrappers {
  /** The largest integer up to which a double represents every integer. */
  const MAX_EXACT_INTEGER: nat := 9007199254740991

  datatype Option<+T> = None | Some(value: T)
}

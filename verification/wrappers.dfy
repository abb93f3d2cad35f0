/** The optional-value datatype used for the interval handle slot and the queued follow-up message. */
module Wrappers {

  /** `Some(v)` holds a value, `None` holds nothing (Rust's `Option`). */
  datatype Option<+T> = None | Some(value: T)
}

/** The failure-signalling value that replaces the source's `None` returns. */
module Wrappers {

  /** A parsed value, or `None` when the input is rejected. */
  datatype Option<+T> = None | Some(value: T)
}

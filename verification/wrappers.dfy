/** The Option type used for the protocol's "no result" answers. */
module Wrappers {

  /** `None` stands for Python's `None` (or the `(None, None)` pair) returned on error. */
  datatype Option<+T> = None | Some(value: T)
}

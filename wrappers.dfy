/** The optional value the pipeline uses for Python's `None` and for an input that may be missing. */
module Wrappers {
  datatype Option<+T> = None | Some(value: T)
}

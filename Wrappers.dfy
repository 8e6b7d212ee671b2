/** A value that may be missing, for lookups and parsers that can fail. */
module Wrappers {
  datatype Option<+T> = None | Some(value: T)
}

/** A value that may be missing: an exception, an error return or a failed search in the source. */
module Wrappers {
  datatype Option<+T> = None | Some(value: T)
}

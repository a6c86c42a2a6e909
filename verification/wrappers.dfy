/** A value that may be missing: an absent request field, or a text that does not parse. */
module Wrappers {

  datatype Option<+T> = None | Some(value: T)
}

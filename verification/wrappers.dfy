/** The optional value the analyzer uses wherever the source returns None. */
module Wrappers {
  datatype Option<+T> = None | Some(value: T)
}

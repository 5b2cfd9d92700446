/** The optional value used for best-effort parses. */
module Wrappers {

  datatype Option<+T> = None | Some(value: T)
}

/** The Option type used for C's NULL results and failed parses. */
module Wrappers {
  datatype Option<+T> = None | Some(value: T)
}

/** The optional value used for "maybe absent" inputs: no table loaded, no log file yet, no choice made. */
module Wrappers {
  datatype Option<+T> = None | Some(value: T)
}

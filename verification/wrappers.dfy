/** The conventional Some/None datatype, used where the script may produce no value. */
module Wrappers {

  datatype Option<+T> = None | Some(value: T)
}

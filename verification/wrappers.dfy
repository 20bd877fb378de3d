/** The optional value used where the JavaScript side holds `undefined` or `null`. */
module Wrappers {

  datatype Option<+T> = None | Some(value: T)
}

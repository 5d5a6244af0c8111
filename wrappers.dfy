/** The optional value returned where the JavaScript code returns `null` or a value. */
module Wrappers {
  datatype Option<+T> = None | Some(value: T)
}

/** An optional value: the model's stand-in for a Go nil interface or nil pointer. */
module Wrappers {

  datatype Option<+T> = None | Some(value: T)
}

/** Option, used for Go's `(value, error)` pairs and nil-able handles. */
module Wrappers {

  datatype Option<+T> = None | Some(value: T)

}

/** Option stands in for Go's nilable pointers (`*bool`, `*Header`, an `interface{}` response). */
module Wrappers {

  datatype Option<+T> = None | Some(value: T)
}

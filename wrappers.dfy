/** Option, used wherever the C code returns a pointer that may be NULL. */
module Wrappers {

  datatype Option<T> = None | Some(value: T)
}

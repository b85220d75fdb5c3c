/** The optional value used for Go's nil-able pointers and slices. */
module Wrappers {

  /** `None` stands for a nil pointer, `Some(v)` for a pointer to `v`. */
  datatype Option<+T> = None | Some(value: T)
}

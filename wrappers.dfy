module Wrappers {

  /** A value that may be absent; stands for a pointer that may be NULL. */
  datatype Option<+T> = None | Some(value: T)
}

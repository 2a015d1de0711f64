/** The optional value used where the C++ code reports a failed open or decode
    through a return flag or a null pointer. */
module Wrappers {
  datatype Option<T> = None | Some(value: T)
}

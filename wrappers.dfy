/** Small helper datatypes shared by every module. */
module Wrappers {

  /** A C pointer that may be null, or a value that may be absent. */
  datatype Option<T> = None | Some(value: T)

}

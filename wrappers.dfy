/** The optional value used for the operating system's may-fail answers. */
module Wrappers {
  datatype Option<+T> = None | Some(value: T)
}

/** The optional value returned by the source's iterator `find` calls. */
module Wrappers {
  datatype Option<+T> = None | Some(value: T)
}

/** The optional value that stands for Python's `None` / a present object. */
module Wrappers {

  datatype Option<+T> = None | Some(value: T)
}

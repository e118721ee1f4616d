/** The optional value that stands for Python's "absent" results and raised errors. */
module Wrappers {

  datatype Option<+T> = None | Some(value: T)
}

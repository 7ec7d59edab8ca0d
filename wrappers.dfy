/** The optional value that the solvers return in place of Python's `None`. */
module Wrappers {

  datatype Option<+T> = None | Some(value: T)
}

/** The optional value that stands for Python's `Optional[...]` results. */
module Wrappers {

  datatype Option<+T> = None | Some(value: T)
}

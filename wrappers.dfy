/** The optional-value datatype shared by the modules of this project. */
module Wrappers {

  /** A value that may be absent: Python's `None` versus a present value. */
  datatype Option<T> = None | Some(value: T)
}

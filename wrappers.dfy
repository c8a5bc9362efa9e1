/** A nullable value: `None` stands for Python's `None` and for a C `NULL` pointer. */
module Wrappers {
  datatype Option<+T> = None | Some(value: T)
}

/** The absent-or-present value that every stage of the script yields: Python's
    `None` becomes `None`, any other return value `Some(value)`. */
module Wrappers {
  datatype Option<+T> = None | Some(value: T)
}

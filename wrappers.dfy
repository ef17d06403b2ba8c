/** The absent-or-present result of a search: Python's `None` or a stored value. */
module Wrappers {

  datatype Option<+T> = None | Some(value: T)
}

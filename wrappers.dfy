/** Python's `None`-or-value, used for optional element text and projected values. */
module Wrappers {

  datatype Option<+T> = None | Some(value: T)
}

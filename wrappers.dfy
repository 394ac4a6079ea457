/** Python's `None`-or-value results and raised errors, as a datatype. */
module Wrappers {

  datatype Option<+T> = None | Some(value: T)
}

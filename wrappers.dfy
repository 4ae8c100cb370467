/** The absent-or-present value used wherever the source returns `null` or reads an
    optional record field. */
module Wrappers {
  datatype Option<+T> = None | Some(value: T)
}

/** The optional value used wherever the source returns `undefined`, `None` or "". */
module Wrappers {
  datatype Option<+T> = None | Some(value: T)
}

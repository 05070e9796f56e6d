/** The optional value used wherever the source returns `null` or an absent field. */
module Wrappers {
  datatype Option<+T> = None | Some(value: T)
}

/** The optional value shared by every module of the model. */
module Wrappers {
  /** `Some` when the value exists, `None` otherwise. */
  datatype Option<+T> = None | Some(value: T)
}

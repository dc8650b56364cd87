/** The optional value used for operations that can fail. */
module Wrappers {

  /** `None` stands for a failure; `Some` carries the result. */
  datatype Option<+T> = None | Some(value: T)
}

/** The optional-value datatype shared by the other modules. */
module Wrappers {

  /** `None` stands for "not found"; `Some(v)` carries the value found. */
  datatype Option<+T> = None | Some(value: T)
}

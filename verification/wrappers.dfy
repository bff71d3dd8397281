/** The optional value used wherever the script reads a property that may be undefined. */
module Wrappers {

  /** `None` stands for JavaScript's `undefined`. */
  datatype Option<+T> = None | Some(value: T)
}

/** The optional-value datatype shared by the other modules. */
module Wrappers {

  /** Either no value, or one value. */
  datatype Option<+T> = None | Some(value: T)
}

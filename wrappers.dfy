/** The optional-value datatype shared by every module of the model. */
module Wrappers {

  /** A value that may be absent: stands for a nullable pointer. */
  datatype Option<+T> = None | Some(value: T)
}

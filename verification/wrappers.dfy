/** The optional-value datatype shared by the text routines and the probe. */
module Wrappers {

  /** `None` stands for the C null pointer or a failed conversion. */
  datatype Option<+T> = None | Some(value: T)
}

/** The "value or null" results of the repository and authentication code. */
module Wrappers {

  /** `None` stands for the source's `null`. */
  datatype Option<+T> = None | Some(value: T)
}

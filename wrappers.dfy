/** The optional-value type shared by every module of the model. */
module Wrappers {

  /** A value that may be absent: a failed `getline`, a missing file, a malformed line. */
  datatype Option<+T> = None | Some(value: T)
}

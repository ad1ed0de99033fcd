/** The optional value used wherever the source has `null`, a failed regex match or a thrown exception. */
module Wrappers {
  datatype Option<+T> = None | Some(value: T)
}

/** The optional value used for "absent" results (no active editor, no mapping). */
module Wrappers {
  datatype Option<+T> = None | Some(value: T)
}

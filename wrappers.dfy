/** The optional value used for attributes that may be absent and lookups that may miss. */
module Wrappers {
  datatype Option<+T> = None | Some(value: T)
}

/** The optional value used wherever script.js has `null` or "no selection". */
module Wrappers {
  datatype Option<+T> = None | Some(value: T)
}

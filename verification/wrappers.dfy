/** The optional value used wherever the script holds `null` or a missing lookup. */
module Wrappers {

  datatype Option<T> = None | Some(value: T)
}

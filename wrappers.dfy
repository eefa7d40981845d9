/** The optional value used wherever the PHP code returns `false` or `null` for "not found". */
module Wrappers {

  datatype Option<+T> = None | Some(value: T)
}

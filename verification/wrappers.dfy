/** The optional value used where the library leaves a pointer null
    (no next layer after a MACsec header). */
module Wrappers {

  datatype Option<+T> = None | Some(value: T)
}

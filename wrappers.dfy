/** The optional value used for every lookup or call that may come back empty. */
module Wrappers {
  datatype Option<+T> = None | Some(value: T)
}

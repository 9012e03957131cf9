/** The optional value used wherever a DOM query or a search may come back empty. */
module Wrappers {

  datatype Option<+T> = None | Some(value: T)
}

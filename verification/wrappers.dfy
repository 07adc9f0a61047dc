/** What C says with NULL, or with -1 for an index. */
module Wrappers {

  datatype Option<T> = None | Some(value: T)
}

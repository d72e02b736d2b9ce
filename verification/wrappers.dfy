/** Optional values: a session that may carry no user, an aggregate that may be SQL NULL. */
module Wrappers {

  datatype Option<+T> = None | Some(value: T)
}

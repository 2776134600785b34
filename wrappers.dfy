/** Optional values: a found offset or address, or "not found". */
module Wrappers {

  datatype Option<+T> = None | Some(value: T)
}

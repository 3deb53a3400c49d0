/** Optional values: an absent feed document (failed fetch or decode) is None. */
module Wrappers {

  datatype Option<+T> = None | Some(value: T)
}

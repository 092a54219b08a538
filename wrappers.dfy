/** Optional values, used where the driver has "a client or NULL" and where a parse may fail. */
module Wrappers {

  datatype Option<+T> = None | Some(value: T)
}

/** Optional values: a parse that may fail, a screen sample that may raise. */
module Wrappers {

  datatype Option<+T> = None | Some(value: T)
}

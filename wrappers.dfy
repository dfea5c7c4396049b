/** Optional values: the model's stand-in for `undefined`, `null` and "no match". */
module Wrappers {
  datatype Option<+T> = None | Some(value: T)
}

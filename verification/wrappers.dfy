/** Optional values: the model's stand-in for Go's nil pointers and absent fields. */
module Wrappers {

  datatype Option<+T> = None | Some(value: T)
}

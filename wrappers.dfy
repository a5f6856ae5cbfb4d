/** Optional results: the model's rendering of the NULL pointers the accessors return. */
module Wrappers {

  datatype Option<+T> = None | Some(value: T)
}

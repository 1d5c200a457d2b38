/** Optional values: the model's stand-in for JavaScript's `null` and `undefined`. */
module Wrappers {

  /** Either nothing, or one value. */
  datatype Option<+T> = None | Some(value: T)
}

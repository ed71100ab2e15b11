/** Optional values. */
module Wrappers {

  /** `None` stands for JavaScript's `undefined` (an unset environment variable). */
  datatype Option<+T> = None | Some(value: T)
}

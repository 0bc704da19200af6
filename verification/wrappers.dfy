/** Optional values. */
module Wrappers {

  /** An optional value; `None` stands for JavaScript's `null` or
      `undefined`. */
  datatype Option<+T> = None | Some(value: T)
}

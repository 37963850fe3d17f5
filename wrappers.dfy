/** Optional values: `None` stands for JavaScript's `NaN` result of `parseInt`. */
module Wrappers {
  datatype Option<+T> = None | Some(value: T)
}

/** Optional values. `None` stands for JavaScript's `undefined`, for a
    missing stored value, and — for numbers — for `NaN`. */
module Wrappers {

  datatype Option<+T> = None | Some(value: T)
}

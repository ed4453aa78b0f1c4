/** Optional values. In this model `None` also stands for JavaScript's
    `undefined` result and for the number `NaN`. */
module Wrappers {

  datatype Option<+T> = None | Some(value: T)
}

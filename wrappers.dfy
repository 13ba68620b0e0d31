/** Optional values: a missing value stands for JavaScript's NaN or undefined,
    or for a blank label. */
module Wrappers {

  datatype Option<+T> = None | Some(value: T)

}

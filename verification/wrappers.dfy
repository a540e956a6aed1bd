/** Optional values: `None` stands for the places where the original program
    panics on an `unwrap` of a failed parse. */
module Wrappers {

  datatype Option<+T> = None | Some(value: T)
}

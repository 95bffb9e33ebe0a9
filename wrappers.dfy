/** Optional values: `None` stands for JavaScript's `undefined` or for an operation that threw. */
module Wrappers {

  datatype Option<+T> = None | Some(value: T)
}

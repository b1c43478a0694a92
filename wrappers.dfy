/** Option values; `None` stands for JavaScript's NaN where a number may fail to parse. */
module Wrappers {
  datatype Option<+T> = None | Some(value: T)
}

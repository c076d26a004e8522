/** Rust's `Option`, as the merge uses it for `heap.pop()` and `last_written`. */
module Wrappers {
  datatype Option<+T> = None | Some(value: T)
}

/** The nullable raw pointers of servo's `cow.rs` (`first_dirty`, `next_dirty`), as a value. */
module Wrappers {
  datatype Option<+T> = None | Some(value: T)
}

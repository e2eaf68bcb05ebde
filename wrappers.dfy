/** The optional value used where the effect's arithmetic is undefined. */
module Wrappers {
  datatype Option<+T> = None | Some(value: T)
}

/** An optional value: stands for the `T | undefined` and `T | null` types of the source. */
module Wrappers {

  datatype Option<+T> = None | Some(value: T)
}

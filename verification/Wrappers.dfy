/** An optional value: what the program writes as null or undefined. */
module Wrappers {
  datatype Option<+T> = None | Some(value: T)
}

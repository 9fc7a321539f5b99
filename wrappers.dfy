/** Option: a value, or its absence where the source raises. */
module Wrappers {

  datatype Option<+T> = None | Some(value: T)
}

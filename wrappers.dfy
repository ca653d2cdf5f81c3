/** The optional result that stands for Ruby's `nil` return. */
module Wrappers {

  datatype Option<+T> = None | Some(value: T)
}

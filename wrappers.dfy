/** Swift's `Optional`, as the validators and the focus state use it. */
module Wrappers {
  datatype Option<+T> = None | Some(value: T)
}

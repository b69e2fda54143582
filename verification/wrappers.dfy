/** The failure-carrying result used where the source raises an exception
    (ValueError from int(), IndexError on a short block). */
module Wrappers {
  datatype Option<+T> = None | Some(value: T)
}

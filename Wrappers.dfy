/** A value that may be absent: JavaScript's `null` result of a regular-expression
    match, and a file that does not exist. */
module Wrappers {

  datatype Option<+T> = None | Some(value: T)
}

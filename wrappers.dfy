/** The outcome of parsing a form field as an integer: `None` when the
    text is not a decimal integer, `Some(n)` otherwise. */
module Wrappers {

  datatype Option<+T> = None | Some(value: T)

}

/** The optional value used wherever the source yields a value or nothing
    (a regular-expression match that fails, a React element that is null). */
module Wrappers {

  datatype Option<+T> = None | Some(value: T)
}

/** The optional value used where the source has an empty callable or undefined behaviour. */
module Wrappers {

  datatype Option<+T> = None | Some(value: T)
}

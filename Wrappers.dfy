/** The optional value used where the generator works with a possibly-null string. */
module Wrappers {

  datatype Option<+T> = None | Some(value: T)
}

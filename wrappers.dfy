/** The optional value the models use for JavaScript's null and undefined. */
module Wrappers {

  datatype Option<+T> = None | Some(value: T)
}

/** The optional value that the source returns from its decrypt operations. */
module Wrappers {

  datatype Option<+T> = None | Some(value: T)

}

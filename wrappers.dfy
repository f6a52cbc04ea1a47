/** The optional value used for fields and results that JavaScript may leave undefined. */
module Wrappers {

  datatype Option<+T> = None | Some(value: T)

}

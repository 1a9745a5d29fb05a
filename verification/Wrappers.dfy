/** The optional result of an operation that can run out of draws. */
module Wrappers {

  datatype Option<T> = None | Some(value: T)

}

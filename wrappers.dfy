/** The optional value the Plugin trait's `start` returns and the instance
    slot holds. */
module Wrappers {

  datatype Option<+T> = None | Some(value: T)
}

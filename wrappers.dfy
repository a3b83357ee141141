/** The optional value the page keeps in nullable state (`string | null`). */
module Wrappers {

  datatype Option<+T> = None | Some(value: T)
}

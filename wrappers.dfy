/** The optional value used wherever the scripts return `None` for a failure. */
module Wrappers {

  datatype Option<+T> = None | Some(value: T)

}

/** The optional value used for the result of `json.loads`. */
module Wrappers {

  datatype Option<+T> = None | Some(value: T)
}

/** The optional value used for JavaScript's `null`/`undefined` results and for absent storage entries. */
module Wrappers {
  datatype Option<+T> = None | Some(value: T)
}

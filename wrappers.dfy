/** The optional-value type used for absent headers, fields and failed external calls. */
module Wrappers {

  datatype Option<+T> = None | Some(value: T)
}

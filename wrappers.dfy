/** The optional value used for form fields that may be missing and for nullable columns. */
module Wrappers {

  datatype Option<+T> = None | Some(value: T)
}

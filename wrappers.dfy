/** The optional value used throughout the model for JavaScript's null/undefined
    and for "no match" results. */
module Wrappers {

  datatype Option<+T> = None | Some(value: T)
}

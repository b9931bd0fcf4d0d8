/** The optional value used for "no plugin bound yet" (`None` in the source). */
module Wrappers {

  datatype Option<+T> = None | Some(value: T)
}

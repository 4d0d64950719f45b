/** The optional value used wherever the application has "nothing" (JavaScript's undefined, null, NaN). */
module Wrappers {

  datatype Option<T> = None | Some(value: T)
}

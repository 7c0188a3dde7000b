/** The optional value used for the runtime's nullable references (`null` in the source). */
module Wrappers {

  datatype Option<+T> = None | Some(value: T)
}

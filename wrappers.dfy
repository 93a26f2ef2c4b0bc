/** The optional value used for "no slot" (a NULL element address) and "no text". */
module Wrappers {
  datatype Option<+T> = None | Some(value: T)
}

/** Option, for the values a lookup or a regular-expression match may lack. */
module Wrappers {

  datatype Option<+T> = None | Some(value: T)
}

/** The optional value the model uses for an element a listing card may lack. */
module Wrappers {

  datatype Option<+T> = None | Some(value: T)
}

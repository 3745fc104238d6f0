/** The optional value the game uses where the original returns a value or null. */
module Wrappers {

  datatype Option<+T> = None | Some(value: T)
}

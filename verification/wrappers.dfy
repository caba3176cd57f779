/** The optional value used for the move coordinates, which the initial
    history entry leaves unset (`null` in the original). */
module Wrappers {

  datatype Option<+T> = None | Some(value: T)
}

/** The optional value used for lookups that may miss (a cell that is not on
    the grid, a string that is not a full date). */
module Wrappers {

  datatype Option<+T> = None | Some(value: T)

}

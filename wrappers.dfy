/** The optional value used for the puzzle's selection (`None` or a tile index)
    and for "a screen asked to leave" in the screen loops. */
module Wrappers {

  datatype Option<+T> = None | Some(value: T)
}

/** Values shared by the board and the game: cell states, coordinates and errors. */
module Stones {

  /** The state of one board cell. */
  datatype Stone = Empty | Black | White

  /** A (row, column) coordinate, in the order the engine passes them: (y, x). */
  type Coord = (int, int)

  /** The exceptions the engine raises, one constructor per kind. */
  datatype Error =
    | InvalidPosition     // place_stone outside the board
    | PositionOccupied    // place_stone on a non-empty cell
    | SelfDestruct        // raised by the group resolver
    | Ko                  // raised by the group resolver
    | IndexError          // a grid read one past the last row or column
    | InvalidInput        // a label that names no coordinate
    | TypeError           // ord() applied to a string of several characters

  /** A value or the exception raised instead. */
  datatype Result<T> = Ok(value: T) | Err(error: Error)

  /** Python's None or a value. */
  datatype Option<T> = None | Some(value: T)
}

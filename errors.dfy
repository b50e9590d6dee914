/** The exceptions the game and the AI raise, turned into values. Every
    operation validates before it mutates, so an error leaves state as it was. */
module Errors {

  datatype Error =
    | InvalidSize    // a grid or game of size <= 0
    | OutOfBounds    // a row or column outside [0, size)
    | CellOccupied   // a move onto a cell that already holds a piece
    | InvalidDepth   // a search depth below 1
    | NoLegalMoves   // the AI asked to move when no cell is empty

  datatype Result<+T> = Ok(value: T) | Err(error: Error)

  datatype Outcome = Pass | Fail(error: Error)
}

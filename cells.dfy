/** Cells of the grid: the `[row, col]` pairs the board and its tiles are indexed by. */
module Cells {

  /** A cell of the grid, zero-indexed. */
  datatype Pos = Pos(row: int, col: int)

  /** The cell lies on a rows x cols grid (`valid_position?`). */
  predicate InBounds(rows: int, cols: int, p: Pos)
  {
    0 <= p.row < rows && 0 <= p.col < cols
  }
}

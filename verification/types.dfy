/** The shapes the engine works on: cells, level descriptors, and the
    board-plus-reserve pair that generation and row injection return. */
module Types {

  /** A cell's identity. The source builds it from the cell's position and a
      random suffix; here it is an opaque string chosen by the caller. */
  type Id = string

  /** One slot of the board. `value` is 1..9 for a tile and 0 for an empty
      slot; `matched` marks a tile that has been eliminated. */
  datatype Cell = Cell(id: Id, row: int, col: int, value: int, matched: bool)

  /** The parameters of one level. `rows` is the board height and
      `initialFilledRows` the number of rows filled from the top. */
  datatype LevelSpec = LevelSpec(
    id: int,
    name: string,
    cols: int,
    rows: int,
    initialFilledRows: int,
    addRowLimit: int,
    timerSeconds: int)

  /** A board together with the queue of values still to be dealt into it. */
  datatype Deal = Deal(grid: seq<Cell>, pool: seq<int>)
}

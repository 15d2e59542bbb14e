/** The data model shared by the searches (src/types/index.ts). */
module Types {

  /** The kinds a grid cell can have. Only `Wall` blocks movement: `Path` and
      `Visited` are presentation marks and stay passable. */
  datatype Kind = Empty | Wall | Start | End | Path | Visited

  /** A cell as the searches see it: its position. The searches compare cells
      only by row and column and key their sets and maps by `${row}-${col}`,
      so a cell's identity is its position; its kind is read from the grid. */
  datatype Pos = Pos(row: int, col: int)

  /** A rectangular table of kinds, indexed `grid[row][col]`. */
  type Grid = seq<seq<Kind>>

  /** What every search returns: the path, the cells in the order the search
      expanded them, and whether the end was reached. */
  datatype SearchResult = SearchResult(path: seq<Pos>, visitedCells: seq<Pos>, found: bool)
}

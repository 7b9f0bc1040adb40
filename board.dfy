/** Geometry of the playing field: the game constants, positions and the four
    heading vectors. Coordinates are pixels, as in the game itself: a cell is a
    BlockSize x BlockSize square whose top-left corner is a multiple of BlockSize. */
module Board {

  const BlockSize: int := 20
  const ScreenWidth: int := 800
  const ScreenHeight: int := 600

  /** Highest column and row index a food draw may produce (inclusive). */
  const MaxColumn: int := (ScreenWidth - BlockSize) / BlockSize
  const MaxRow: int := (ScreenHeight - BlockSize) / BlockSize

  /** A pixel position, or a heading vector: the game uses integer pairs for both. */
  datatype Pos = Pos(x: int, y: int)

  const Up: Pos := Pos(0, -BlockSize)
  const Down: Pos := Pos(0, BlockSize)
  const Left: Pos := Pos(-BlockSize, 0)
  const Right: Pos := Pos(BlockSize, 0)

  /** The arrow keys the player presses; each selects one heading. */
  datatype Arrow = UpKey | DownKey | LeftKey | RightKey

  function Vector(a: Arrow): (d: Pos)
    ensures IsDirection(d)
  {
    match a
    case UpKey => Up
    case DownKey => Down
    case LeftKey => Left
    case RightKey => Right
  }

  predicate IsDirection(d: Pos) {
    d == Up || d == Down || d == Left || d == Right
  }

  function Add(p: Pos, d: Pos): Pos {
    Pos(p.x + d.x, p.y + d.y)
  }

  /** The heading pointing the other way. */
  function Opposite(d: Pos): (o: Pos)
    ensures IsDirection(d) ==> IsDirection(o) && o != d
    ensures Add(d, o) == Pos(0, 0)
  {
    Pos(-d.x, -d.y)
  }

  /** Inside the window: 0 <= x < 800 and 0 <= y < 600. */
  predicate InBounds(p: Pos) {
    0 <= p.x < ScreenWidth && 0 <= p.y < ScreenHeight
  }

  /** A cell the game can draw on: in bounds and block-aligned. */
  predicate OnGrid(p: Pos) {
    InBounds(p) && p.x % BlockSize == 0 && p.y % BlockSize == 0
  }

  /** The cell at column i, row j. */
  function Cell(i: int, j: int): Pos {
    Pos(i * BlockSize, j * BlockSize)
  }

  /** The cells on the board are exactly those with a column in [0, MaxColumn]
      and a row in [0, MaxRow]. */
  lemma CellOnGrid(i: int, j: int)
    ensures OnGrid(Cell(i, j)) <==> 0 <= i <= MaxColumn && 0 <= j <= MaxRow
  {
  }

  lemma OnGridIsCell(p: Pos)
    requires OnGrid(p)
    ensures p == Cell(p.x / BlockSize, p.y / BlockSize)
    ensures 0 <= p.x / BlockSize <= MaxColumn && 0 <= p.y / BlockSize <= MaxRow
  {
  }

  /** A step of one heading from a cell lands block-aligned; it is on the grid
      exactly when it stays in bounds. */
  lemma StepStaysAligned(p: Pos, d: Pos)
    requires OnGrid(p) && IsDirection(d)
    ensures OnGrid(Add(p, d)) <==> InBounds(Add(p, d))
  {
  }
}

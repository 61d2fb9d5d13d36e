/**
  The playing field: a 640x480 screen cut into 20-pixel cells (a 32x24 grid).
  A cell is named by the pixel position of its top-left corner, so the cells
  of the grid are the pairs whose coordinates are multiples of 20 inside the
  screen.
 */
module Grid {

  const ScreenWidth: int := 640
  const ScreenHeight: int := 480
  const GridSize: int := 20
  const GridWidth: int := ScreenWidth / GridSize
  const GridHeight: int := ScreenHeight / GridSize

  /** A pixel-aligned position on the screen. */
  datatype Cell = Cell(x: int, y: int)

  /** The start cell of the snake, the centre of the screen. */
  const ScreenCenter: Cell := Cell(ScreenWidth / 2, ScreenHeight / 2)

  /** The four headings; their unit vectors are given by DX and DY. */
  datatype Direction = Up | Down | Left | Right

  /** The horizontal component: nonzero exactly for Left and Right. */
  function DX(d: Direction): (r: int)
    ensures -1 <= r <= 1
    ensures r != 0 <==> d == Left || d == Right
  {
    match d
    case Left => -1
    case Right => 1
    case _ => 0
  }

  /** The vertical component, growing downwards; each heading is a unit vector along one axis. */
  function DY(d: Direction): (r: int)
    ensures -1 <= r <= 1
    ensures r != 0 <==> DX(d) == 0
  {
    match d
    case Up => -1
    case Down => 1
    case _ => 0
  }

  /** The reverse heading: its vector is the negated vector of d. */
  function Opposite(d: Direction): (r: Direction)
    ensures DX(r) == -DX(d) && DY(r) == -DY(d)
    ensures r != d
  {
    match d
    case Up => Down
    case Down => Up
    case Left => Right
    case Right => Left
  }

  /** A cell of the grid: inside the screen and aligned to the cell size. */
  predicate OnGrid(c: Cell)
  {
    0 <= c.x < ScreenWidth && 0 <= c.y < ScreenHeight &&
    c.x % GridSize == 0 && c.y % GridSize == 0
  }

  /**
    The head after one step from c in direction d, wrapping around each axis
    independently. Python's `%` with a positive divisor is never negative, and
    neither is Dafny's, so the result always lies on the screen.
   */
  function NextHead(c: Cell, d: Direction): (r: Cell)
    ensures 0 <= r.x < ScreenWidth && 0 <= r.y < ScreenHeight
    ensures 0 <= c.x + DX(d) * GridSize < ScreenWidth ==> r.x == c.x + DX(d) * GridSize
    ensures 0 <= c.y + DY(d) * GridSize < ScreenHeight ==> r.y == c.y + DY(d) * GridSize
  {
    Cell((c.x + DX(d) * GridSize) % ScreenWidth, (c.y + DY(d) * GridSize) % ScreenHeight)
  }

  /** Reference reading of the wraparound on one axis: leaving past one edge re-enters at the other. */
  function EdgeWrap(v: int, size: int): int
  {
    if v >= size then v - size else if v < 0 then v + size else v
  }

  lemma AxisWrap(v: int, k: int, size: int)
    requires size == ScreenWidth || size == ScreenHeight
    requires 0 <= v < size && v % GridSize == 0 && -1 <= k <= 1
    ensures (v + k * GridSize) % size == EdgeWrap(v + k * GridSize, size)
    ensures EdgeWrap(v + k * GridSize, size) % GridSize == 0
  {
    var w := v + k * GridSize;
    if w >= size {
      assert w == size && (w - size) % GridSize == 0;
    } else if w < 0 {
      assert w == -GridSize;
    }
  }

  /** On a grid cell the modular step is the edge-wrapping step, and it lands on a grid cell. */
  lemma NextHeadWraps(c: Cell, d: Direction)
    requires OnGrid(c)
    ensures NextHead(c, d) == Cell(EdgeWrap(c.x + DX(d) * GridSize, ScreenWidth),
                                   EdgeWrap(c.y + DY(d) * GridSize, ScreenHeight))
    ensures OnGrid(NextHead(c, d))
  {
    AxisWrap(c.x, DX(d), ScreenWidth);
    AxisWrap(c.y, DY(d), ScreenHeight);
  }

  /** The four edges: one step off any edge re-enters at the opposite edge, the other axis unchanged. */
  lemma WrapAtEdges(c: Cell)
    requires OnGrid(c)
    ensures c.x == ScreenWidth - GridSize ==> NextHead(c, Right) == Cell(0, c.y)
    ensures c.x == 0 ==> NextHead(c, Left) == Cell(ScreenWidth - GridSize, c.y)
    ensures c.y == ScreenHeight - GridSize ==> NextHead(c, Down) == Cell(c.x, 0)
    ensures c.y == 0 ==> NextHead(c, Up) == Cell(c.x, ScreenHeight - GridSize)
  {
    NextHeadWraps(c, Right);
    NextHeadWraps(c, Left);
    NextHeadWraps(c, Down);
    NextHeadWraps(c, Up);
  }

  /** A step always leaves the cell it starts from. */
  lemma NextHeadMoves(c: Cell, d: Direction)
    requires OnGrid(c)
    ensures NextHead(c, d) != c
  {
    NextHeadWraps(c, d);
  }

  /** Stepping back in the reverse heading returns to the start cell. */
  lemma NextHeadBack(c: Cell, d: Direction)
    requires OnGrid(c)
    ensures NextHead(NextHead(c, d), Opposite(d)) == c
  {
    NextHeadWraps(c, d);
    NextHeadWraps(NextHead(c, d), Opposite(d));
  }

  lemma CenterOnGrid()
    ensures OnGrid(ScreenCenter) && ScreenCenter == Cell(320, 240)
    ensures GridWidth == 32 && GridHeight == 24
  {
  }
}

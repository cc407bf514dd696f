/** The grid adapter: a flat walkability map read as a row-major width x height grid,
    and the Manhattan heuristic used by the search. */
module GridAdapter {

  /** One cell of the caller's map: an unsigned char. */
  type byte = b: int | 0 <= b < 256

  datatype Cell = Cell(x: int, y: int)

  /** The caller's map (`map` in the source; a keyword here): `width * height` bytes, row after row; 1 marks a walkable cell. */
  datatype Grid = Grid(width: int, height: int, cells: seq<byte>)

  predicate WellFormed(grid: Grid) {
    0 < grid.width && 0 < grid.height && |grid.cells| == grid.width * grid.height
  }

  predicate InBounds(grid: Grid, x: int, y: int) {
    0 <= x < grid.width && 0 <= y < grid.height
  }

  /** The slot of cell (x, y) in the flat map, `x + y * width`: it lies inside the map. */
  function Index(grid: Grid, x: int, y: int): (i: nat)
    requires WellFormed(grid) && InBounds(grid, x, y)
    ensures i < |grid.cells|
  {
    RowMajor(grid.width, grid.height, x, y);
    x + y * grid.width
  }

  /** A cell the search may step on: inside the grid and marked 1 (any other byte blocks it). */
  predicate Walkable(grid: Grid, x: int, y: int) {
    WellFormed(grid) && InBounds(grid, x, y) && grid.cells[Index(grid, x, y)] == 1
  }

  function Abs(n: int): nat {
    if n < 0 then -n else n
  }

  /** The Manhattan distance between (x, y) and (targetX, targetY). */
  function Distance(x: int, y: int, targetX: int, targetY: int): (d: nat)
    ensures d == 0 <==> x == targetX && y == targetY
  {
    Abs(x - targetX) + Abs(y - targetY)
  }

  /** Two cells one orthogonal step apart. */
  predicate Adjacent(a: Cell, b: Cell) {
    Distance(a.x, a.y, b.x, b.y) == 1
  }

  lemma MulNonneg(a: int, b: int)
    requires 0 <= a && 0 <= b
    ensures 0 <= a * b
  {
  }

  /** A non-zero multiple of a positive number is at least that number away from zero. */
  lemma MulAwayFromZero(k: int, w: int)
    requires 0 < w && k != 0
    ensures k * w >= w || k * w <= -w
  {
    if k > 0 {
      MulNonneg(k - 1, w);
      assert k * w == (k - 1) * w + w;
    } else {
      MulNonneg(-k - 1, w);
      assert k * w == -((-k - 1) * w) - w;
    }
  }

  /** Euclidean division by a positive number is determined by quotient and remainder. */
  lemma DivModUnique(i: int, w: int, q: int, r: int)
    requires 0 < w && 0 <= r < w && i == q * w + r
    ensures i / w == q && i % w == r
  {
    var q', r' := i / w, i % w;
    assert i == q' * w + r';
    assert (q - q') * w == r' - r;
    if q != q' {
      MulAwayFromZero(q - q', w);
    }
  }

  /** Row-major layout: an in-bounds cell's slot lies in the map and decodes back to the cell. */
  lemma RowMajor(w: int, h: int, x: int, y: int)
    requires 0 <= x < w && 0 <= y < h
    ensures 0 <= x + y * w < w * h
    ensures (x + y * w) % w == x && (x + y * w) / w == y
  {
    MulNonneg(y, w);
    MulNonneg(h - y - 1, w);
    assert (h - y - 1) * w == h * w - y * w - w;
    DivModUnique(x + y * w, w, y, x);
  }

  /** Each in-bounds cell has a slot of its own: the column and the row can be read back from it. */
  lemma IndexRoundTrip(grid: Grid, x: int, y: int)
    requires WellFormed(grid) && InBounds(grid, x, y)
    ensures Index(grid, x, y) % grid.width == x && Index(grid, x, y) / grid.width == y
  {
    RowMajor(grid.width, grid.height, x, y);
  }

  /** Distinct in-bounds cells have distinct slots, so a slot names exactly one cell. */
  lemma IndexInjective(grid: Grid, a: Cell, b: Cell)
    requires WellFormed(grid) && InBounds(grid, a.x, a.y) && InBounds(grid, b.x, b.y)
    ensures Index(grid, a.x, a.y) == Index(grid, b.x, b.y) <==> a == b
  {
    IndexRoundTrip(grid, a.x, a.y);
    IndexRoundTrip(grid, b.x, b.y);
  }

  lemma DistanceSymmetric(x: int, y: int, targetX: int, targetY: int)
    ensures Distance(x, y, targetX, targetY) == Distance(targetX, targetY, x, y)
  {
  }

  /** One orthogonal step changes the heuristic by exactly one, up or down. */
  lemma StepChangesDistanceByOne(a: Cell, b: Cell, target: Cell)
    requires Adjacent(a, b)
    ensures var da, db := Distance(a.x, a.y, target.x, target.y), Distance(b.x, b.y, target.x, target.y);
      da == db + 1 || db == da + 1
  {
  }

  /** The adjacent cells of a cell are exactly its four orthogonal neighbours. */
  lemma AdjacentIsOrthogonalStep(a: Cell, b: Cell)
    ensures Adjacent(a, b) <==>
      b == Cell(a.x - 1, a.y) || b == Cell(a.x + 1, a.y) || b == Cell(a.x, a.y - 1) || b == Cell(a.x, a.y + 1)
  {
  }
}

/** The N x N grid: the point lists of the cells and the colour matrix.

    Both are indexed `[j][i]`: the outer index `j` is the row, derived from a
    point's y coordinate, the inner index `i` the column, derived from x. */
module Grid {
  import opened Geometry
  import opened Offsets
  import opened GridSums

  /** The point list of every cell, `cells[j][i]`. */
  type Cells = seq<seq<seq<Point>>>

  /** The colour of every cell, `grid[j][i]`. */
  type ColourGrid = seq<seq<int>>

  /** A cell not coloured yet. */
  const Uncoloured := 0

  /** The mark of an empty cell, 0b1111_1111: never coloured. */
  const Sentinel := 255

  /** The largest colour a `u8` counter can mint without hitting the sentinel. */
  const MaxColour := 254

  /** The largest side for which `i + 2` and the side itself fit in an `i8`. */
  const MaxSide := 126

  /** The largest count a `u16` cluster size can hold. */
  const MaxSize := 65535

  predicate IsSquare(cells: Cells)
  {
    forall j :: 0 <= j < |cells| ==> |cells[j]| == |cells|
  }

  predicate IsGrid(g: ColourGrid, n: int)
  {
    |g| == n && forall j :: 0 <= j < n ==> |g[j]| == n
  }

  predicate InCells(cells: Cells, j: int, i: int)
  {
    0 <= j < |cells| && 0 <= i < |cells[j]|
  }

  predicate InGrid(g: ColourGrid, j: int, i: int)
  {
    0 <= j < |g| && 0 <= i < |g[j]|
  }

  /** `point_in_cell`: the cell holds at least one point. */
  predicate PointInCell(cells: Cells, i: int, j: int)
    requires InCells(cells, j, i)
  {
    |cells[j][i]| > 0
  }

  /** The number of points of a cell whose colour is `c`, else 0. */
  ghost function PointsColoured(cells: Cells, g: ColourGrid, c: int): (int, int) -> int
  {
    (j: int, i: int) => if InCells(cells, j, i) && InGrid(g, j, i) && g[j][i] == c then |cells[j][i]| else 0
  }

  /** The number of points in the cells coloured `c`. */
  ghost function Weight(cells: Cells, g: ColourGrid, c: int): nat
  {
    GridSumNonNegative(|cells|, |cells|, PointsColoured(cells, g, c));
    GridSum(|cells|, |cells|, PointsColoured(cells, g, c))
  }

  ghost function IsUncoloured(g: ColourGrid): (int, int) -> int
  {
    (j: int, i: int) => if InGrid(g, j, i) && g[j][i] == Uncoloured then 1 else 0
  }

  /** The number of cells still uncoloured: the flood fill's termination measure. */
  ghost function ZeroCount(g: ColourGrid): nat
  {
    GridSumNonNegative(|g|, |g|, IsUncoloured(g));
    GridSum(|g|, |g|, IsUncoloured(g))
  }

  ghost function PointsHeld(cells: Cells): (int, int) -> int
  {
    (j: int, i: int) => if InCells(cells, j, i) then |cells[j][i]| else 0
  }

  /** The number of points stored in the grid. */
  ghost function TotalPoints(cells: Cells): nat
  {
    GridSumNonNegative(|cells|, |cells|, PointsHeld(cells));
    GridSum(|cells|, |cells|, PointsHeld(cells))
  }

  ghost function IsOccupied(cells: Cells): (int, int) -> int
  {
    (j: int, i: int) => if InCells(cells, j, i) && cells[j][i] != [] then 1 else 0
  }

  /** The number of cells holding at least one point. */
  ghost function NonEmptyCount(cells: Cells): nat
  {
    GridSumNonNegative(|cells|, |cells|, IsOccupied(cells));
    GridSum(|cells|, |cells|, IsOccupied(cells))
  }

  /** Cell (j2, i2) is one of the 20 offset neighbours of cell (j, i) and the
      two are connexe: the step the flood fill takes. The column offset is
      the first component of the offset, the row offset the second. */
  ghost predicate Edge(cells: Cells, radius: real, j: int, i: int, j2: int, i2: int)
  {
    InCells(cells, j, i) && InCells(cells, j2, i2)
    && IsNeighbourOffset(i2 - i, j2 - j)
    && Connexe(cells[j][i], cells[j2][i2], radius)
  }

  /** Steps go both ways: the offsets are closed under negation and the
      adjacency test is symmetric. */
  lemma EdgeSymmetric(cells: Cells, radius: real, j: int, i: int, j2: int, i2: int)
    requires Edge(cells, radius, j, i, j2, i2)
    ensures Edge(cells, radius, j2, i2, j, i)
  {
    OffsetsNegate(i2 - i, j2 - j);
    ConnexeSymmetric(cells[j][i], cells[j2][i2], radius);
  }

  /** Steps only join cells that hold points. */
  lemma EdgeJoinsOccupied(cells: Cells, radius: real, j: int, i: int, j2: int, i2: int)
    requires Edge(cells, radius, j, i, j2, i2)
    ensures cells[j][i] != [] && cells[j2][i2] != []
  {
    ConnexeNeedsPoints(cells[j][i], cells[j2][i2], radius);
  }

  /** An uncoloured cell is counted among the uncoloured cells. */
  lemma UncolouredCellCounts(g: ColourGrid, j: int, i: int)
    requires IsGrid(g, |g|)
    requires InGrid(g, j, i) && g[j][i] == Uncoloured
    ensures ZeroCount(g) >= 1
  {
    var n := |g|;
    var h := (j2: int, i2: int) => if j2 == j && i2 == i then 0 else IsUncoloured(g)(j2, i2);
    GridSumPoint(n, n, IsUncoloured(g), h, j, i);
    GridSumNonNegative(n, n, h);
  }

  /** Colouring one uncoloured cell `c` removes one uncoloured cell and adds
      that cell's points to the weight of `c`, leaving every other colour's
      weight as it was. */
  lemma ColourOneCell(cells: Cells, g: ColourGrid, j: int, i: int, c: int)
    requires IsSquare(cells) && IsGrid(g, |cells|)
    requires InGrid(g, j, i) && g[j][i] == Uncoloured && c != Uncoloured
    ensures ZeroCount(g[j := g[j][i := c]]) == ZeroCount(g) - 1
    ensures Weight(cells, g[j := g[j][i := c]], c) == Weight(cells, g, c) + |cells[j][i]|
    ensures forall c' :: c' != c && c' != Uncoloured ==>
      Weight(cells, g[j := g[j][i := c]], c') == Weight(cells, g, c')
  {
    var n := |cells|;
    var g' := g[j := g[j][i := c]];
    GridSumPoint(n, n, IsUncoloured(g), IsUncoloured(g'), j, i);
    GridSumPoint(n, n, PointsColoured(cells, g, c), PointsColoured(cells, g', c), j, i);
    forall c' | c' != c && c' != Uncoloured
      ensures Weight(cells, g', c') == Weight(cells, g, c')
    {
      GridSumCongruent(n, n, PointsColoured(cells, g, c'), PointsColoured(cells, g', c'));
    }
  }
}

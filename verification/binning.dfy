/** The first pass of `main`: push every point onto the point list of its
    cell, in input order.

    The cell of a point is an input here: its column `i` is the floor of
    x / cell_size and its row `j` the floor of y / cell_size, computed in
    floating point by the program. */
module Binning {
  import opened Geometry
  import opened GridSums
  import opened Grid

  /** The cell a point falls in: column i (from x), row j (from y). */
  datatype Slot = Slot(i: int, j: int)

  /** Every slot is inside the n x n grid. */
  predicate SlotsFit(slots: seq<Slot>, n: nat)
  {
    forall k :: 0 <= k < |slots| ==> 0 <= slots[k].i < n && 0 <= slots[k].j < n
  }

  /** The points whose slot is (i, j), in input order. */
  function Select(points: seq<Point>, slots: seq<Slot>, i: int, j: int): seq<Point>
    requires |slots| == |points|
  {
    if |points| == 0 then []
    else
      var last := |points| - 1;
      Select(points[..last], slots[..last], i, j) + (if slots[last] == Slot(i, j) then [points[last]] else [])
  }

  /** An n x n grid of empty point lists. */
  function EmptyCells(n: nat): (cells: Cells)
    ensures |cells| == n && IsSquare(cells)
    ensures forall j, i :: 0 <= j < n && 0 <= i < n ==> cells[j][i] == []
  {
    seq(n, _ => seq(n, _ => []))
  }

  /** Bin the points: each cell holds exactly the points of its slot, in
      input order. */
  function Bin(n: nat, points: seq<Point>, slots: seq<Slot>): (cells: Cells)
    requires |slots| == |points| && SlotsFit(slots, n)
    ensures |cells| == n && IsSquare(cells)
    ensures forall j, i :: 0 <= j < n && 0 <= i < n ==> cells[j][i] == Select(points, slots, i, j)
    decreases |points|
  {
    if |points| == 0 then EmptyCells(n)
    else
      var last := |points| - 1;
      var before := Bin(n, points[..last], slots[..last]);
      var s := slots[last];
      before[s.j := before[s.j][s.i := before[s.j][s.i] + [points[last]]]]
  }

  /** No point is lost or duplicated: the grid holds as many points as the input. */
  lemma {:induction false} BinKeepsEveryPoint(n: nat, points: seq<Point>, slots: seq<Slot>)
    requires |slots| == |points| && SlotsFit(slots, n)
    ensures TotalPoints(Bin(n, points, slots)) == |points|
    decreases |points|
  {
    var cells := Bin(n, points, slots);
    if |points| == 0 {
      GridSumCongruent(n, n, PointsHeld(cells), (j: int, i: int) => 0);
      GridSumZero(n, n);
    } else {
      var last := |points| - 1;
      var before := Bin(n, points[..last], slots[..last]);
      BinKeepsEveryPoint(n, points[..last], slots[..last]);
      var s := slots[last];
      GridSumPoint(n, n, PointsHeld(before), PointsHeld(cells), s.j, s.i);
    }
  }
}

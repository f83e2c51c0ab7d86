/** The whole run of `main` past reading the input: bin the points, mark the
    empty cells, colour the clusters, and finalise the list of cluster sizes. */
module Clustering {
  import opened Geometry
  import opened GridSums
  import opened Grid
  import opened Binning
  import opened Labeller
  import opened SizeList
  import opened Components

  /** What the program prints: the colour matrix and the sizes, largest first. */
  datatype Report = Report(grid: ColourGrid, sizes: seq<nat>)

  /** The point counts of colours 1 .. k, in colour order. */
  ghost function ColourWeights(cells: Cells, g: ColourGrid, k: nat): (w: seq<nat>)
    ensures |w| == k
  {
    seq(k, c requires 0 <= c < k => Weight(cells, g, c + 1))
  }

  /** The facts about a finished run over `cells`. */
  ghost predicate Reported(cells: Cells, radius: real, rep: Report, total: nat)
  {
    var g := rep.grid;
    var k := |rep.sizes|;
    && IsGrid(g, |cells|)
    && k <= MaxColour
    && SentinelOnEmpty(cells, g)
    && (forall j, i :: InGrid(g, j, i) ==> g[j][i] != Uncoloured)
    && (forall j, i :: InGrid(g, j, i) && InCells(cells, j, i) && cells[j][i] != [] ==> 1 <= g[j][i] <= k)
    && (forall c :: 1 <= c <= k ==> Used(g, c))
    && StepsKeepColour(cells, radius, g)
    && ClustersAreComponents(cells, radius, g)
    && ColoursInOrder(g, k + 1)
    && Descending(rep.sizes)
    && multiset(rep.sizes) == multiset(ColourWeights(cells, g, k))
    && Sum(rep.sizes) == total
    && (forall p :: 0 <= p < k ==> rep.sizes[p] <= MaxSize)
  }

  /** Cluster n x n binned points. On success every cell is coloured, the
      sentinel marks exactly the empty cells, the occupied cells carry the
      colours 1 .. K with K the number of sizes reported, two occupied cells
      share a colour exactly when a path of steps joins them, the colours are
      numbered in the row-major order of their first cells, and the sizes are
      the point counts of the colours, largest first, adding up to the number
      of points. It fails only when the points fall into at least 255
      clusters. */
  method Cluster(n: nat, radius: real, points: seq<Point>, slots: seq<Slot>) returns (r: Result<Report>)
    requires n <= MaxSide
    requires |slots| == |points| && SlotsFit(slots, n)
    requires |points| <= MaxSize
    ensures r.Ok? ==> Reported(Bin(n, points, slots), radius, r.value, |points|)
    ensures r.TooManyClusters? ==> NonEmptyCount(Bin(n, points, slots)) > MaxColour
    ensures r.TooManyClusters? ==> AtLeastClusters(Bin(n, points, slots), radius, MaxColour + 1)
  {
    var cells := Bin(n, points, slots);
    var start := MarkEmpty(cells);
    var swept := Sweep(cells, radius, start);
    match swept {
      case TooManyClusters =>
        return TooManyClusters;
      case Ok(labelled) =>
        var sizes := Finalise(labelled.sizes);
        BinKeepsEveryPoint(n, points, slots);
        FinalisedReport(cells, radius, labelled, sizes);
        return Ok(Report(labelled.grid, sizes));
    }
  }

  /** The finalised size list of a completed sweep gives a report whose sizes
      add up to the points of the grid. */
  lemma FinalisedReport(cells: Cells, radius: real, labelled: Labelled, sizes: seq<nat>)
    requires IsSquare(cells)
    requires Swept(cells, radius, labelled)
    requires TotalPoints(cells) <= MaxSize
    requires Descending(sizes)
    requires multiset(sizes) == multiset(labelled.sizes[..|labelled.sizes| - 1])
    requires Sum(sizes) == Sum(labelled.sizes[..|labelled.sizes| - 1])
    ensures Reported(cells, radius, Report(labelled.grid, sizes), TotalPoints(cells))
  {
    var g := labelled.grid;
    var k := |labelled.sizes| - 1;
    assert labelled.sizes[..k] == ColourWeights(cells, g, k);
    assert |sizes| == |multiset(sizes)| == |multiset(labelled.sizes[..k])| == k;
    WeightsAddUp(cells, g, k);
    ComponentsFromColours(cells, radius, g, k);
    forall p | 0 <= p < |sizes|
      ensures sizes[p] <= MaxSize
    {
      ElementAtMostSum(sizes, p);
    }
  }

  ghost function PointsColouredUpTo(cells: Cells, g: ColourGrid, m: int): (int, int) -> int
  {
    (j: int, i: int) => if InCells(cells, j, i) && InGrid(g, j, i) && 1 <= g[j][i] <= m then |cells[j][i]| else 0
  }

  lemma {:induction false} PrefixWeights(cells: Cells, g: ColourGrid, m: nat)
    requires IsSquare(cells) && IsGrid(g, |cells|)
    ensures Sum(ColourWeights(cells, g, m)) == GridSum(|cells|, |cells|, PointsColouredUpTo(cells, g, m))
    decreases m
  {
    var n := |cells|;
    if m == 0 {
      GridSumCongruent(n, n, PointsColouredUpTo(cells, g, 0), (j: int, i: int) => 0);
      GridSumZero(n, n);
    } else {
      PrefixWeights(cells, g, m - 1);
      assert ColourWeights(cells, g, m)[..m - 1] == ColourWeights(cells, g, m - 1);
      GridSumAdd(n, n, PointsColouredUpTo(cells, g, m - 1), PointsColoured(cells, g, m), PointsColouredUpTo(cells, g, m));
    }
  }

  /** When every occupied cell carries one of the colours 1 .. k, the point
      counts of those colours add up to all the points of the grid. */
  lemma WeightsAddUp(cells: Cells, g: ColourGrid, k: nat)
    requires IsSquare(cells) && IsGrid(g, |cells|)
    requires forall j, i :: InGrid(g, j, i) && InCells(cells, j, i) && cells[j][i] != [] ==> 1 <= g[j][i] <= k
    ensures Sum(ColourWeights(cells, g, k)) == TotalPoints(cells)
  {
    PrefixWeights(cells, g, k);
    GridSumCongruent(|cells|, |cells|, PointsColouredUpTo(cells, g, k), PointsHeld(cells));
  }
}

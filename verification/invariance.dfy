/** What a report does not depend on. The colours are the connected
    components numbered in the row-major order of their first cells, and the
    sizes are their point counts, largest first: these facts fix the report.
    They see a cell's points only as a collection, so the order in which the
    points come in does not matter either. */
module Invariance {
  import opened Geometry
  import opened GridSums
  import opened Grid
  import opened Binning
  import opened Labeller
  import opened SizeList
  import opened Components
  import opened Clustering

  /** The input as (point, slot) pairs, in input order. */
  function Pairs(points: seq<Point>, slots: seq<Slot>): seq<(Point, Slot)>
    requires |slots| == |points|
  {
    seq(|points|, k requires 0 <= k < |points| => (points[k], slots[k]))
  }

  /** Two grids of the same shape whose cells hold the same points, each
      as many times, in any order. */
  ghost predicate SameContents(c1: Cells, c2: Cells)
  {
    && IsSquare(c1) && IsSquare(c2) && |c1| == |c2|
    && forall j, i :: InCells(c1, j, i) ==> multiset(c1[j][i]) == multiset(c2[j][i])
  }

  /** A cell holds point x as often as the input pairs x with the cell's slot. */
  lemma {:induction false} SelectCounts(points: seq<Point>, slots: seq<Slot>, i: int, j: int, x: Point)
    requires |slots| == |points|
    ensures multiset(Select(points, slots, i, j))[x] == multiset(Pairs(points, slots))[(x, Slot(i, j))]
    decreases |points|
  {
    if |points| > 0 {
      var last := |points| - 1;
      SelectCounts(points[..last], slots[..last], i, j, x);
      assert Pairs(points, slots) == Pairs(points[..last], slots[..last]) + [(points[last], slots[last])];
    }
  }

  /** Binning a reordering of the input pairs puts the same points in every
      cell: only the order within a cell changes. */
  lemma BinReordered(n: nat, p1: seq<Point>, s1: seq<Slot>, p2: seq<Point>, s2: seq<Slot>)
    requires |s1| == |p1| && SlotsFit(s1, n)
    requires |s2| == |p2| && SlotsFit(s2, n)
    requires multiset(Pairs(p1, s1)) == multiset(Pairs(p2, s2))
    ensures SameContents(Bin(n, p1, s1), Bin(n, p2, s2))
  {
    var c1, c2 := Bin(n, p1, s1), Bin(n, p2, s2);
    forall j, i | InCells(c1, j, i)
      ensures multiset(c1[j][i]) == multiset(c2[j][i])
    {
      forall x
        ensures multiset(c1[j][i])[x] == multiset(c2[j][i])[x]
      {
        SelectCounts(p1, s1, i, j, x);
        SelectCounts(p2, s2, i, j, x);
      }
    }
  }

  /** Contents are shared both ways. */
  lemma SameContentsSymmetric(c1: Cells, c2: Cells)
    requires SameContents(c1, c2)
    ensures SameContents(c2, c1)
  {
    forall j, i | InCells(c2, j, i)
      ensures multiset(c2[j][i]) == multiset(c1[j][i])
    {
      assert InCells(c1, j, i);
    }
  }

  /** The adjacency test sees only which points the two cells hold. */
  lemma ConnexeSameContents(a1: seq<Point>, b1: seq<Point>, a2: seq<Point>, b2: seq<Point>, radius: real)
    requires multiset(a1) == multiset(a2) && multiset(b1) == multiset(b2)
    requires Connexe(a1, b1, radius)
    ensures Connexe(a2, b2, radius)
  {
    var a, b :| 0 <= a < |a1| && 0 <= b < |b1| && Within(a1[a], b1[b], radius);
    assert a1[a] in multiset(a2) && b1[b] in multiset(b2);
    var a' :| 0 <= a' < |a2| && a2[a'] == a1[a];
    var b' :| 0 <= b' < |b2| && b2[b'] == b1[b];
  }

  /** A step in one grid is a step in a grid with the same contents. */
  lemma EdgeSameContents(c1: Cells, c2: Cells, radius: real, j: int, i: int, j2: int, i2: int)
    requires SameContents(c1, c2)
    requires Edge(c1, radius, j, i, j2, i2)
    ensures Edge(c2, radius, j, i, j2, i2)
  {
    ConnexeSameContents(c1[j][i], c1[j2][i2], c2[j][i], c2[j2][i2], radius);
  }

  /** A path in one grid is a path in a grid with the same contents. */
  lemma ConnectedSameContents(c1: Cells, c2: Cells, radius: real, a: Cell, b: Cell)
    requires SameContents(c1, c2)
    requires Connected(c1, radius, a, b)
    ensures Connected(c2, radius, a, b)
  {
    var p: seq<Cell> :| IsPath(c1, radius, p) && p[0] == a && p[|p| - 1] == b;
    forall k | 0 <= k < |p| - 1
      ensures Edge(c2, radius, p[k].0, p[k].1, p[k + 1].0, p[k + 1].1)
    {
      EdgeSameContents(c1, c2, radius, p[k].0, p[k].1, p[k + 1].0, p[k + 1].1);
    }
    assert IsPath(c2, radius, p);
  }

  /** Cells with the same contents hold as many points, so every colour
      weighs the same. */
  lemma WeightSameContents(c1: Cells, c2: Cells, g: ColourGrid, c: int)
    requires SameContents(c1, c2)
    ensures Weight(c1, g, c) == Weight(c2, g, c)
  {
    forall j, i | InCells(c1, j, i)
      ensures |c1[j][i]| == |c2[j][i]|
    {
      assert |multiset(c1[j][i])| == |multiset(c2[j][i])|;
    }
    GridSumCongruent(|c1|, |c1|, PointsColoured(c1, g, c), PointsColoured(c2, g, c));
  }

  /** Grids with the same contents have the same empty cells. */
  lemma EmptySameContents(c1: Cells, c2: Cells, j: int, i: int)
    requires SameContents(c1, c2) && InCells(c1, j, i)
    ensures InCells(c2, j, i) && (c1[j][i] == [] <==> c2[j][i] == [])
  {
    assert |multiset(c1[j][i])| == |multiset(c2[j][i])|;
  }

  /** The components do not change with the order of the points in a cell. */
  lemma ComponentsSameContents(c1: Cells, c2: Cells, radius: real, g: ColourGrid)
    requires SameContents(c1, c2)
    requires StepsKeepColour(c1, radius, g) && ClustersAreComponents(c1, radius, g)
    ensures StepsKeepColour(c2, radius, g) && ClustersAreComponents(c2, radius, g)
  {
    SameContentsSymmetric(c1, c2);
    forall j, i, j2, i2 | Edge(c2, radius, j, i, j2, i2)
      ensures InGrid(g, j, i) && InGrid(g, j2, i2) && g[j][i] == g[j2][i2]
    {
      EdgeSameContents(c2, c1, radius, j, i, j2, i2);
    }
    forall j, i, j2, i2 | InGrid(g, j, i) && InGrid(g, j2, i2) && InCells(c2, j, i) && InCells(c2, j2, i2)
      && c2[j][i] != [] && c2[j2][i2] != []
      ensures g[j][i] == g[j2][i2] <==> Connected(c2, radius, (j, i), (j2, i2))
    {
      EmptySameContents(c2, c1, j, i);
      EmptySameContents(c2, c1, j2, i2);
      if Connected(c2, radius, (j, i), (j2, i2)) {
        ConnectedSameContents(c2, c1, radius, (j, i), (j2, i2));
      }
      if Connected(c1, radius, (j, i), (j2, i2)) {
        ConnectedSameContents(c1, c2, radius, (j, i), (j2, i2));
      }
    }
  }

  /** The point counts of the colours do not change with the order of the
      points in a cell. */
  lemma ColourWeightsSameContents(c1: Cells, c2: Cells, g: ColourGrid, k: nat)
    requires SameContents(c1, c2)
    ensures ColourWeights(c1, g, k) == ColourWeights(c2, g, k)
  {
    forall c | 0 <= c < k
      ensures ColourWeights(c1, g, k)[c] == ColourWeights(c2, g, k)[c]
    {
      WeightSameContents(c1, c2, g, c + 1);
    }
  }

  /** A report over one grid is a report over any grid with the same
      contents. */
  lemma ReportedSameContents(c1: Cells, c2: Cells, radius: real, rep: Report, total: nat)
    requires SameContents(c1, c2)
    requires Reported(c1, radius, rep, total)
    ensures Reported(c2, radius, rep, total)
  {
    var g, k := rep.grid, |rep.sizes|;
    forall j, i | InCells(c2, j, i)
      ensures (c1[j][i] == []) == (c2[j][i] == [])
    {
      assert InCells(c1, j, i);
      EmptySameContents(c1, c2, j, i);
    }
    ComponentsSameContents(c1, c2, radius, g);
    ColourWeightsSameContents(c1, c2, g, k);
  }

  /** The facts of a report that fix its colour matrix: the sentinel on the
      empty cells, the colours 1 .. k on the occupied ones, the colours as
      the components, and their numbering in sweep order. */
  ghost predicate Numbered(cells: Cells, radius: real, g: ColourGrid, k: int)
  {
    && IsSquare(cells) && IsGrid(g, |cells|)
    && k <= MaxColour
    && SentinelOnEmpty(cells, g)
    && (forall j, i :: InGrid(g, j, i) && InCells(cells, j, i) && cells[j][i] != [] ==> 1 <= g[j][i] <= k)
    && ClustersAreComponents(cells, radius, g)
    && ColoursInOrder(g, k + 1)
  }

  /** The two colour matrices agree on every cell before (j, i). */
  ghost predicate AgreeBefore(g1: ColourGrid, g2: ColourGrid, j: int, i: int)
  {
    forall j2, i2 :: InGrid(g1, j2, i2) && InGrid(g2, j2, i2) && Before(j2, i2, j, i) ==> g1[j2][i2] == g2[j2][i2]
  }

  /** Where two numbered colour matrices agree on every cell before (j, i),
      the first does not give cell (j, i) a larger colour. Were it larger,
      an earlier cell would carry, in the first matrix, the second matrix's
      colour of (j, i); that cell agrees in both, so in the second matrix it
      shares a colour with (j, i), is therefore connected to it, and so shares
      its colour in the first matrix too. */
  lemma NoLargerColour(cells: Cells, radius: real, g1: ColourGrid, g2: ColourGrid, k1: int, k2: int, j: int, i: int)
    requires Numbered(cells, radius, g1, k1) && Numbered(cells, radius, g2, k2)
    requires InGrid(g1, j, i) && AgreeBefore(g1, g2, j, i)
    ensures g1[j][i] <= g2[j][i]
  {
    assert InCells(cells, j, i) && InGrid(g2, j, i);
    if cells[j][i] != [] && g2[j][i] < g1[j][i] {
      EarlierColoursBefore(g1, k1 + 1, j, i, g2[j][i]);
    }
  }

  /** Two numbered colour matrices that agree before a cell agree on it. */
  lemma CellsAgree(cells: Cells, radius: real, g1: ColourGrid, g2: ColourGrid, k1: int, k2: int)
    requires Numbered(cells, radius, g1, k1) && Numbered(cells, radius, g2, k2)
    ensures forall j, i :: InGrid(g1, j, i) && InGrid(g2, j, i) && AgreeBefore(g1, g2, j, i) ==> g1[j][i] == g2[j][i]
  {
    forall j, i | InGrid(g1, j, i) && InGrid(g2, j, i) && AgreeBefore(g1, g2, j, i)
      ensures g1[j][i] == g2[j][i]
    {
      NoLargerColour(cells, radius, g1, g2, k1, k2, j, i);
      assert AgreeBefore(g2, g1, j, i);
      NoLargerColour(cells, radius, g2, g1, k2, k1, j, i);
    }
  }

  /** Matrices that agree on each cell they agree before, and agree before
      row j, agree before row j + 1. */
  lemma {:induction false} RowAgrees(g1: ColourGrid, g2: ColourGrid, n: nat, j: int)
    requires IsGrid(g1, n) && IsGrid(g2, n) && 0 <= j < n
    requires forall j, i :: InGrid(g1, j, i) && InGrid(g2, j, i) && AgreeBefore(g1, g2, j, i) ==> g1[j][i] == g2[j][i]
    requires AgreeBefore(g1, g2, j, 0)
    ensures AgreeBefore(g1, g2, j + 1, 0)
  {
    var i := 0;
    while i < n
      invariant 0 <= i <= n
      invariant AgreeBefore(g1, g2, j, i)
    {
      assert InGrid(g1, j, i) && InGrid(g2, j, i);
      i := i + 1;
    }
  }

  /** Two numbered colour matrices over the same grid are equal. */
  lemma GridsAgree(cells: Cells, radius: real, g1: ColourGrid, g2: ColourGrid, k1: int, k2: int)
    requires Numbered(cells, radius, g1, k1) && Numbered(cells, radius, g2, k2)
    ensures g1 == g2
  {
    var n := |cells|;
    CellsAgree(cells, radius, g1, g2, k1, k2);
    var j := 0;
    while j < n
      invariant 0 <= j <= n
      invariant AgreeBefore(g1, g2, j, 0)
    {
      RowAgrees(g1, g2, n, j);
      j := j + 1;
    }
    forall j2 | 0 <= j2 < n
      ensures g1[j2] == g2[j2]
    {
      assert forall i2 :: 0 <= i2 < n ==> Before(j2, i2, n, 0);
    }
  }

  /** The facts a report states fix it: over one grid and radius there is
      only one report, so running again on the same input gives the same
      report. */
  lemma ReportUnique(cells: Cells, radius: real, r1: Report, r2: Report, t1: nat, t2: nat)
    requires IsSquare(cells)
    requires Reported(cells, radius, r1, t1) && Reported(cells, radius, r2, t2)
    ensures r1 == r2
  {
    var k1, k2 := |r1.sizes|, |r2.sizes|;
    assert Numbered(cells, radius, r1.grid, k1) && Numbered(cells, radius, r2.grid, k2);
    GridsAgree(cells, radius, r1.grid, r2.grid, k1, k2);
    var g := r1.grid;
    // the largest colour of either report is used, and so occupies a cell
    // that the other report colours at most with its own largest colour
    if k1 < k2 {
      assert Used(g, k2);
      var j, i :| InGrid(g, j, i) && g[j][i] == k2;
      assert InCells(cells, j, i);
    } else if k2 < k1 {
      assert Used(g, k1);
      var j, i :| InGrid(g, j, i) && g[j][i] == k1;
      assert InCells(cells, j, i);
    }
    DescendingUnique(r1.sizes, r2.sizes);
  }

  /** Pigeonholes: at most k distinct values fit in 1 .. k. */
  lemma {:induction false} DistinctBounded(f: seq<int>, k: nat)
    requires forall p :: 0 <= p < |f| ==> 1 <= f[p] <= k
    requires forall p, q :: 0 <= p < q < |f| ==> f[p] != f[q]
    ensures |f| <= k
    decreases k
  {
    if |f| > 0 {
      assert 1 <= f[0] <= k;
      if p :| 0 <= p < |f| && f[p] == k {
        var f' := f[..p] + f[p + 1..];
        assert forall q :: 0 <= q < |f'| ==> f'[q] == (if q < p then f[q] else f[q + 1]);
        DistinctBounded(f', k - 1);
      } else {
        DistinctBounded(f, k - 1);
      }
    }
  }

  /** A finished report rules out 255 clusters: the cells of separate
      clusters carry different colours, and a report has at most 254. */
  lemma ReportedNotTooMany(cells: Cells, radius: real, rep: Report, total: nat)
    requires IsSquare(cells)
    requires Reported(cells, radius, rep, total)
    ensures !AtLeastClusters(cells, radius, MaxColour + 1)
  {
    var g, k := rep.grid, |rep.sizes|;
    if AtLeastClusters(cells, radius, MaxColour + 1) {
      var s: seq<Cell> :| |s| == MaxColour + 1 && Separate(cells, radius, s);
      var f := seq(|s|, q requires 0 <= q < |s| => if InGrid(g, s[q].0, s[q].1) then g[s[q].0][s[q].1] else 0);
      forall q | 0 <= q < |s|
        ensures InGrid(g, s[q].0, s[q].1) && 1 <= f[q] <= k
      {
        assert InCells(cells, s[q].0, s[q].1);
      }
      forall p, q | 0 <= p < q < |f|
        ensures f[p] != f[q]
      {
        assert !Connected(cells, radius, s[p], s[q]);
      }
      DistinctBounded(f, k);
    }
  }

  /** Reordering the input does not change the report: cells fill with the
      same points, only in another order, so the colours, their numbering
      and the sizes all stay the same. */
  lemma ReportOrderInvariant(n: nat, radius: real, p1: seq<Point>, s1: seq<Slot>, p2: seq<Point>, s2: seq<Slot>,
                             r1: Report, r2: Report)
    requires |s1| == |p1| && SlotsFit(s1, n)
    requires |s2| == |p2| && SlotsFit(s2, n)
    requires multiset(Pairs(p1, s1)) == multiset(Pairs(p2, s2))
    requires Reported(Bin(n, p1, s1), radius, r1, |p1|)
    requires Reported(Bin(n, p2, s2), radius, r2, |p2|)
    ensures r1 == r2
  {
    var c1, c2 := Bin(n, p1, s1), Bin(n, p2, s2);
    BinReordered(n, p1, s1, p2, s2);
    ReportedSameContents(c1, c2, radius, r1, |p1|);
    ReportUnique(c2, radius, r1, r2, |p1|, |p2|);
  }

  /** Reordering the input cannot make the run fail where it succeeded: the
      points of the reordered input do not fall into 255 clusters, which is
      the only way the sweep fails. */
  lemma OutcomeOrderInvariant(n: nat, radius: real, p1: seq<Point>, s1: seq<Slot>, p2: seq<Point>, s2: seq<Slot>,
                              r1: Report)
    requires |s1| == |p1| && SlotsFit(s1, n)
    requires |s2| == |p2| && SlotsFit(s2, n)
    requires multiset(Pairs(p1, s1)) == multiset(Pairs(p2, s2))
    requires Reported(Bin(n, p1, s1), radius, r1, |p1|)
    ensures !AtLeastClusters(Bin(n, p2, s2), radius, MaxColour + 1)
  {
    var c1, c2 := Bin(n, p1, s1), Bin(n, p2, s2);
    BinReordered(n, p1, s1, p2, s2);
    ReportedSameContents(c1, c2, radius, r1, |p1|);
    ReportedNotTooMany(c2, radius, r1, |p1|);
  }
}

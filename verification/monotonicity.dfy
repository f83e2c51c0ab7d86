/** Growing the radius over the same cells: every step stays a step, so no
    cluster splits and the number of clusters does not grow. */
module Monotonicity {
  import opened Geometry
  import opened Grid
  import opened Labeller
  import opened Components
  import opened Clustering
  import opened Invariance

  /** Two points within a radius are within any larger one. */
  lemma WithinGrows(p: Point, q: Point, r1: real, r2: real)
    requires 0.0 <= r1 <= r2
    requires Within(p, q, r1)
    ensures Within(p, q, r2)
  {
    assert r1 * r1 <= r1 * r2 <= r2 * r2;
  }

  /** A step at one radius is a step at any larger one. */
  lemma EdgeGrows(cells: Cells, r1: real, r2: real, j: int, i: int, j2: int, i2: int)
    requires 0.0 <= r1 <= r2
    requires Edge(cells, r1, j, i, j2, i2)
    ensures Edge(cells, r2, j, i, j2, i2)
  {
    var a, b :| 0 <= a < |cells[j][i]| && 0 <= b < |cells[j2][i2]| && Within(cells[j][i][a], cells[j2][i2][b], r1);
    WithinGrows(cells[j][i][a], cells[j2][i2][b], r1, r2);
  }

  /** Cells connected at one radius are connected at any larger one. */
  lemma ConnectedGrows(cells: Cells, r1: real, r2: real, a: Cell, b: Cell)
    requires 0.0 <= r1 <= r2
    requires Connected(cells, r1, a, b)
    ensures Connected(cells, r2, a, b)
  {
    var p: seq<Cell> :| IsPath(cells, r1, p) && p[0] == a && p[|p| - 1] == b;
    forall k | 0 <= k < |p| - 1
      ensures Edge(cells, r2, p[k].0, p[k].1, p[k + 1].0, p[k + 1].1)
    {
      EdgeGrows(cells, r1, r2, p[k].0, p[k].1, p[k + 1].0, p[k + 1].1);
    }
    assert IsPath(cells, r2, p);
  }

  /** Occupied cells sharing a colour in g1 share one in g2: g2 merges
      clusters of g1 but splits none. */
  ghost predicate Coarser(cells: Cells, g1: ColourGrid, g2: ColourGrid)
  {
    forall j, i, j2, i2 ::
      (&& InCells(cells, j, i) && InCells(cells, j2, i2) && cells[j][i] != [] && cells[j2][i2] != []
       && InGrid(g1, j, i) && InGrid(g1, j2, i2) && InGrid(g2, j, i) && InGrid(g2, j2, i2)
       && g1[j][i] == g1[j2][i2])
      ==> g2[j][i] == g2[j2][i2]
  }

  /** No cluster splits as the radius grows: occupied cells in one cluster
      at the smaller radius are in one cluster at the larger. */
  lemma NoSplit(cells: Cells, r1: real, r2: real, rep1: Report, rep2: Report, t1: nat, t2: nat)
    requires IsSquare(cells) && 0.0 <= r1 <= r2
    requires Reported(cells, r1, rep1, t1) && Reported(cells, r2, rep2, t2)
    ensures Coarser(cells, rep1.grid, rep2.grid)
  {
    var g1, g2 := rep1.grid, rep2.grid;
    forall j, i, j2, i2 | InCells(cells, j, i) && InCells(cells, j2, i2) && cells[j][i] != [] && cells[j2][i2] != []
      && InGrid(g1, j, i) && InGrid(g1, j2, i2) && InGrid(g2, j, i) && InGrid(g2, j2, i2) && g1[j][i] == g1[j2][i2]
      ensures g2[j][i] == g2[j2][i2]
    {
      ConnectedGrows(cells, r1, r2, (j, i), (j2, i2));
    }
  }

  /** A colouring that splits no cluster of another uses no more colours:
      a cell of each of its colours gives cells of pairwise different
      colours in the other. */
  lemma CoarserHasFewer(cells: Cells, g1: ColourGrid, g2: ColourGrid, k1: nat, k2: nat)
    requires IsSquare(cells) && IsGrid(g1, |cells|) && IsGrid(g2, |cells|)
    requires SentinelOnEmpty(cells, g2) && k2 <= MaxColour
    requires forall c :: 1 <= c <= k2 ==> Used(g2, c)
    requires forall j, i :: InGrid(g1, j, i) && InCells(cells, j, i) && cells[j][i] != [] ==> 1 <= g1[j][i] <= k1
    requires Coarser(cells, g1, g2)
    ensures k2 <= k1
  {
    // reps[c - 1] is an occupied cell of colour c in g2
    var reps: seq<Cell> := [];
    while |reps| < k2
      invariant |reps| <= k2
      invariant forall q :: 0 <= q < |reps| ==> InCells(cells, reps[q].0, reps[q].1) && cells[reps[q].0][reps[q].1] != []
      invariant forall q :: 0 <= q < |reps| ==> InGrid(g2, reps[q].0, reps[q].1) && g2[reps[q].0][reps[q].1] == q + 1
    {
      assert Used(g2, |reps| + 1);
      var j, i :| InGrid(g2, j, i) && g2[j][i] == |reps| + 1;
      assert InCells(cells, j, i);
      reps := reps + [(j, i)];
    }
    var f := seq(k2, q requires 0 <= q < k2 => g1[reps[q].0][reps[q].1]);
    forall p, q | 0 <= p < q < |f|
      ensures f[p] != f[q]
    {
      assert g2[reps[p].0][reps[p].1] != g2[reps[q].0][reps[q].1];
    }
    DistinctBounded(f, k1);
  }

  /** The number of clusters does not grow with the radius. */
  lemma FewerClusters(cells: Cells, r1: real, r2: real, rep1: Report, rep2: Report, t1: nat, t2: nat)
    requires IsSquare(cells) && 0.0 <= r1 <= r2
    requires Reported(cells, r1, rep1, t1) && Reported(cells, r2, rep2, t2)
    ensures |rep2.sizes| <= |rep1.sizes|
  {
    NoSplit(cells, r1, r2, rep1, rep2, t1, t2);
    CoarserHasFewer(cells, rep1.grid, rep2.grid, |rep1.sizes|, |rep2.sizes|);
  }
}

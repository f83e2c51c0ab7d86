/** Connectivity under the flood fill's step relation. A cluster is meant to
    be a connected component of the occupied cells, where two cells are
    joined when one is an offset neighbour of the other and the two are
    connexe. */
module Components {
  import opened Grid

  /** A cell as (row j, column i). */
  type Cell = (int, int)

  /** Consecutive cells of p are joined by a step. */
  ghost predicate IsPath(cells: Cells, radius: real, p: seq<Cell>)
  {
    |p| > 0 && forall k :: 0 <= k < |p| - 1 ==> Edge(cells, radius, p[k].0, p[k].1, p[k + 1].0, p[k + 1].1)
  }

  /** Some path of steps leads from a to b. */
  ghost predicate Connected(cells: Cells, radius: real, a: Cell, b: Cell)
  {
    exists p :: IsPath(cells, radius, p) && p[0] == a && p[|p| - 1] == b
  }

  /** Both ends of every step carry the same colour. */
  ghost predicate StepsKeepColour(cells: Cells, radius: real, g: ColourGrid)
  {
    forall j, i, j2, i2 :: Edge(cells, radius, j, i, j2, i2) ==> InGrid(g, j, i) && InGrid(g, j2, i2) && g[j][i] == g[j2][i2]
  }

  /** Any two cells sharing one of the colours 1 .. next - 1 are connected. */
  ghost predicate ColoursConnected(cells: Cells, radius: real, g: ColourGrid, next: int)
  {
    forall j, i, j2, i2 :: InGrid(g, j, i) && InGrid(g, j2, i2) && 1 <= g[j][i] < next && g[j2][i2] == g[j][i]
      ==> Connected(cells, radius, (j, i), (j2, i2))
  }

  /** Two occupied cells carry the same colour exactly when they are
      connected: the colours are the connected components. */
  ghost predicate ClustersAreComponents(cells: Cells, radius: real, g: ColourGrid)
  {
    forall j, i, j2, i2 :: InGrid(g, j, i) && InGrid(g, j2, i2) && InCells(cells, j, i) && InCells(cells, j2, i2)
      && cells[j][i] != [] && cells[j2][i2] != []
      ==> (g[j][i] == g[j2][i2] <==> Connected(cells, radius, (j, i), (j2, i2)))
  }

  /** Occupied cells no two of which are joined by a path of steps: each
      lies in a cluster of its own. */
  ghost predicate Separate(cells: Cells, radius: real, s: seq<Cell>)
  {
    && (forall k :: 0 <= k < |s| ==> InCells(cells, s[k].0, s[k].1) && cells[s[k].0][s[k].1] != [])
    && (forall k1, k2 :: 0 <= k1 < |s| && 0 <= k2 < |s| && k1 != k2 ==> !Connected(cells, radius, s[k1], s[k2]))
  }

  /** The occupied cells fall into at least m clusters. */
  ghost predicate AtLeastClusters(cells: Cells, radius: real, m: int)
  {
    exists s :: |s| == m && Separate(cells, radius, s)
  }

  lemma ConnectedToItself(cells: Cells, radius: real, a: Cell)
    ensures Connected(cells, radius, a, a)
  {
    assert IsPath(cells, radius, [a]);
  }

  /** A step followed by a path is a path. */
  lemma ConnectedStep(cells: Cells, radius: real, a: Cell, b: Cell, c: Cell)
    requires Edge(cells, radius, a.0, a.1, b.0, b.1)
    requires Connected(cells, radius, b, c)
    ensures Connected(cells, radius, a, c)
  {
    var p: seq<Cell> :| IsPath(cells, radius, p) && p[0] == b && p[|p| - 1] == c;
    var q: seq<Cell> := [a] + p;
    assert forall k :: 0 < k < |q| ==> q[k] == p[k - 1];
    assert IsPath(cells, radius, q);
  }

  /** Paths run both ways, because steps do. */
  lemma ConnectedSymmetric(cells: Cells, radius: real, a: Cell, b: Cell)
    requires Connected(cells, radius, a, b)
    ensures Connected(cells, radius, b, a)
  {
    var p: seq<Cell> :| IsPath(cells, radius, p) && p[0] == a && p[|p| - 1] == b;
    var n := |p|;
    var q: seq<Cell> := seq(n, k requires 0 <= k < n => p[n - 1 - k]);
    forall k | 0 <= k < n - 1
      ensures Edge(cells, radius, q[k].0, q[k].1, q[k + 1].0, q[k + 1].1)
    {
      var m := n - 2 - k;
      assert Edge(cells, radius, p[m].0, p[m].1, p[m + 1].0, p[m + 1].1);
      EdgeSymmetric(cells, radius, p[m].0, p[m].1, p[m + 1].0, p[m + 1].1);
    }
    assert IsPath(cells, radius, q);
  }

  /** Paths compose. */
  lemma ConnectedTransitive(cells: Cells, radius: real, a: Cell, b: Cell, c: Cell)
    requires Connected(cells, radius, a, b) && Connected(cells, radius, b, c)
    ensures Connected(cells, radius, a, c)
  {
    var p: seq<Cell> :| IsPath(cells, radius, p) && p[0] == a && p[|p| - 1] == b;
    var q: seq<Cell> :| IsPath(cells, radius, q) && q[0] == b && q[|q| - 1] == c;
    var r: seq<Cell> := p + q[1..];
    assert forall k :: 0 <= k < |p| ==> r[k] == p[k];
    assert forall k :: |p| <= k < |r| ==> r[k] == q[k - |p| + 1];
    forall k | 0 <= k < |r| - 1
      ensures Edge(cells, radius, r[k].0, r[k].1, r[k + 1].0, r[k + 1].1)
    {
      if k < |p| - 1 {
        assert r[k] == p[k] && r[k + 1] == p[k + 1];
      } else {
        var m := k - |p| + 1;
        assert r[k] == q[m] && r[k + 1] == q[m + 1];
      }
    }
    assert IsPath(cells, radius, r);
  }

  /** When every step keeps the colour, so does every path of two cells or more. */
  lemma {:induction false} PathKeepsColour(cells: Cells, radius: real, g: ColourGrid, p: seq<Cell>)
    requires StepsKeepColour(cells, radius, g)
    requires IsPath(cells, radius, p) && |p| > 1
    ensures InGrid(g, p[0].0, p[0].1) && InGrid(g, p[|p| - 1].0, p[|p| - 1].1)
    ensures g[p[0].0][p[0].1] == g[p[|p| - 1].0][p[|p| - 1].1]
    decreases |p|
  {
    assert Edge(cells, radius, p[0].0, p[0].1, p[1].0, p[1].1);
    if |p| > 2 {
      var rest: seq<Cell> := p[1..];
      assert forall k :: 0 <= k < |rest| ==> rest[k] == p[k + 1];
      assert IsPath(cells, radius, rest);
      PathKeepsColour(cells, radius, g, rest);
    }
  }

  /** A colouring in which steps keep colours, cells of one colour are
      connected, and every occupied cell carries one of the colours 1 .. k
      has the connected components as its colours. */
  lemma ComponentsFromColours(cells: Cells, radius: real, g: ColourGrid, k: int)
    requires StepsKeepColour(cells, radius, g)
    requires ColoursConnected(cells, radius, g, k + 1)
    requires forall j, i :: InGrid(g, j, i) && InCells(cells, j, i) && cells[j][i] != [] ==> 1 <= g[j][i] <= k
    ensures ClustersAreComponents(cells, radius, g)
  {
    forall j, i, j2, i2 | InGrid(g, j, i) && InGrid(g, j2, i2) && InCells(cells, j, i) && InCells(cells, j2, i2)
      && cells[j][i] != [] && cells[j2][i2] != []
      ensures g[j][i] == g[j2][i2] <==> Connected(cells, radius, (j, i), (j2, i2))
    {
      if Connected(cells, radius, (j, i), (j2, i2)) {
        var p: seq<Cell> :| IsPath(cells, radius, p) && p[0] == (j, i) && p[|p| - 1] == (j2, i2);
        if |p| > 1 {
          PathKeepsColour(cells, radius, g, p);
        }
      }
    }
  }
}

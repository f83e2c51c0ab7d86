/** `add_color_to_matrix_cell`: colour a seed cell, add its points to the
    size of its colour, and recurse into every uncoloured, in-bounds, connexe
    offset neighbour.

    The colour matrix is a value here: the fill takes the matrix and the
    size vector and returns their new contents. */
module FloodFill {
  import opened Geometry
  import opened Offsets
  import opened Grid
  import opened Components

  /** g' is g with some uncoloured cells coloured `colour` and nothing else changed. */
  ghost predicate Grows(g: ColourGrid, g': ColourGrid, colour: int)
  {
    && |g'| == |g|
    && (forall j :: 0 <= j < |g| ==> |g'[j]| == |g[j]|)
    && (forall j, i :: InGrid(g, j, i) && g'[j][i] != g[j][i] ==> g[j][i] == Uncoloured && g'[j][i] == colour)
  }

  /** Every cell that (j, i) can step to is coloured in g. */
  ghost predicate ClosedAt(cells: Cells, radius: real, g: ColourGrid, j: int, i: int)
  {
    forall j2, i2 :: Edge(cells, radius, j, i, j2, i2) ==> InGrid(g, j2, i2) && g[j2][i2] != Uncoloured
  }

  /** The neighbour of seed (j, i) at offset d is out of bounds, not connexe,
      or coloured in g. */
  ghost predicate OffsetDone(cells: Cells, radius: real, g: ColourGrid, j: int, i: int, d: Offset)
  {
    InCells(cells, j, i) && InCells(cells, j + d.1, i + d.0)
    && Connexe(cells[j][i], cells[j + d.1][i + d.0], radius)
    ==> InGrid(g, j + d.1, i + d.0) && g[j + d.1][i + d.0] != Uncoloured
  }

  /** Every cell that g' colours beyond g is connected to the seed (j, i) by
      a path of steps, and every such cell other than the seed holds points
      and has all its step neighbours coloured in g'. */
  ghost predicate Filled(cells: Cells, radius: real, g: ColourGrid, g': ColourGrid, j: int, i: int)
  {
    forall j2, i2 :: InGrid(g, j2, i2) && InGrid(g', j2, i2) && g'[j2][i2] != g[j2][i2] ==>
      && Connected(cells, radius, (j, i), (j2, i2))
      && ((j2 == j && i2 == i) || (InCells(cells, j2, i2) && cells[j2][i2] != [] && ClosedAt(cells, radius, g', j2, i2)))
  }

  /** The state of `ColorFrom`'s offset loop over `grid` and `sizes` after
      trying offsets 0 .. k - 1 of seed (j, i): the seed carries `colour`,
      the fill so far only coloured uncoloured cells, each reached from the
      seed, offsets 0 .. k - 1 are done, only the size of `colour` moved, by
      the points it coloured, and at least the seed was coloured. */
  ghost predicate FillState(cells: Cells, radius: real, grid: ColourGrid, sizes: seq<nat>, j: int, i: int, colour: int,
                            offsets: seq<Offset>, k: int, g: ColourGrid, s: seq<nat>)
  {
    && IsGrid(g, |cells|) && InGrid(g, j, i) && g[j][i] == colour
    && Grows(grid, g, colour)
    && Filled(cells, radius, grid, g, j, i)
    && 0 <= k <= |offsets|
    && (forall m :: 0 <= m < k ==> OffsetDone(cells, radius, g, j, i, offsets[m]))
    && |s| == |sizes| && 1 <= colour <= |sizes|
    && (forall c :: 0 <= c < |s| && c != colour - 1 ==> s[c] == sizes[c])
    && s[colour - 1] == sizes[colour - 1] + Weight(cells, g, colour) - Weight(cells, grid, colour)
    && ZeroCount(g) < ZeroCount(grid)
  }

  lemma GrowsTransitive(g0: ColourGrid, g1: ColourGrid, g2: ColourGrid, colour: int)
    requires colour != Uncoloured
    requires Grows(g0, g1, colour) && Grows(g1, g2, colour)
    ensures Grows(g0, g2, colour)
  {
    forall j, i | InGrid(g0, j, i) && g2[j][i] != g0[j][i]
      ensures g0[j][i] == Uncoloured && g2[j][i] == colour
    {
      assert InGrid(g1, j, i);
    }
  }

  /** Coloured cells stay coloured, so a cell closed in g stays closed. */
  lemma GrowsKeepsClosed(cells: Cells, radius: real, g: ColourGrid, g': ColourGrid, colour: int, j: int, i: int)
    requires Grows(g, g', colour)
    requires ClosedAt(cells, radius, g, j, i)
    ensures ClosedAt(cells, radius, g', j, i)
  {
    forall j2, i2 | Edge(cells, radius, j, i, j2, i2)
      ensures InGrid(g', j2, i2) && g'[j2][i2] != Uncoloured
    {
      assert InGrid(g, j2, i2) && g[j2][i2] != Uncoloured;
    }
  }

  lemma GrowsKeepsOffsetDone(cells: Cells, radius: real, g: ColourGrid, g': ColourGrid, colour: int, j: int, i: int, d: Offset)
    requires Grows(g, g', colour)
    requires OffsetDone(cells, radius, g, j, i, d)
    ensures OffsetDone(cells, radius, g', j, i, d)
  {
    if InCells(cells, j, i) && InCells(cells, j + d.1, i + d.0) && Connexe(cells[j][i], cells[j + d.1][i + d.0], radius) {
      assert InGrid(g, j + d.1, i + d.0);
    }
  }

  /** The neighbour (aj, ai) at offset k is out of bounds, already coloured
      or not connexe with the seed: skipping it moves the loop on. */
  lemma NextOffsetDone(cells: Cells, radius: real, grid: ColourGrid, sizes: seq<nat>, j: int, i: int, colour: int,
                       aj: int, ai: int, offsets: seq<Offset>, k: int, g: ColourGrid, s: seq<nat>)
    requires FillState(cells, radius, grid, sizes, j, i, colour, offsets, k, g, s)
    requires k < |offsets| && offsets[k].0 == ai - i && offsets[k].1 == aj - j
    requires || !InCells(cells, aj, ai)
             || (InGrid(g, aj, ai) && g[aj][ai] != Uncoloured)
             || (InCells(cells, j, i) && !Connexe(cells[j][i], cells[aj][ai], radius))
    ensures FillState(cells, radius, grid, sizes, j, i, colour, offsets, k + 1, g, s)
  {
  }

  /** Once every offset has been tried, the seed is closed. */
  lemma AllOffsetsDoneIsClosed(cells: Cells, radius: real, g: ColourGrid, j: int, i: int, offsets: seq<Offset>)
    requires forall d :: d in offsets <==> IsNeighbourOffset(d.0, d.1)
    requires forall m :: 0 <= m < |offsets| ==> OffsetDone(cells, radius, g, j, i, offsets[m])
    ensures ClosedAt(cells, radius, g, j, i)
  {
    forall j2, i2 | Edge(cells, radius, j, i, j2, i2)
      ensures InGrid(g, j2, i2) && g[j2][i2] != Uncoloured
    {
      var d := (i2 - i, j2 - j);
      assert d in offsets;
      var m :| 0 <= m < |offsets| && offsets[m] == d;
      assert OffsetDone(cells, radius, g, j, i, offsets[m]);
    }
  }

  /** Colour the seed (i, j) with `colour`, add its point count to
      `sizes[colour - 1]`, then recurse into each of the 20 offset neighbours
      that is in bounds, uncoloured and connexe with the seed.

      The result colours the seed and only ever turns uncoloured cells into
      `colour`; every cell it colours is connected to the seed by a path of
      steps; every cell it colours other than the seed holds points; every
      cell it colours, the seed included, has all its step neighbours
      coloured; the size of `colour` grows by the points of the cells it
      coloured and no other size changes. Each call colours one more cell, so the number of
      uncoloured cells bounds the recursion. */
  method ColorFrom(cells: Cells, radius: real, grid: ColourGrid, sizes: seq<nat>, i: int, j: int, colour: int)
    returns (g: ColourGrid, s: seq<nat>)
    requires IsSquare(cells) && |cells| <= MaxSide
    requires IsGrid(grid, |cells|)
    requires 0 <= i < |cells| && 0 <= j < |cells|
    requires grid[j][i] == Uncoloured
    requires 1 <= colour <= |sizes|
    ensures IsGrid(g, |cells|)
    ensures g[j][i] == colour
    ensures Grows(grid, g, colour)
    ensures Filled(cells, radius, grid, g, j, i) && ClosedAt(cells, radius, g, j, i)
    ensures |s| == |sizes|
    ensures forall k :: 0 <= k < |s| && k != colour - 1 ==> s[k] == sizes[k]
    ensures s[colour - 1] == sizes[colour - 1] + Weight(cells, g, colour) - Weight(cells, grid, colour)
    ensures ZeroCount(g) < ZeroCount(grid)
    decreases ZeroCount(grid), 0
  {
    g := grid[j := grid[j][i := colour]];
    s := sizes[colour - 1 := sizes[colour - 1] + |cells[j][i]|];
    ColourOneCell(cells, grid, j, i, colour);
    ConnectedToItself(cells, radius, (j, i));

    var offsets := NeighbourOffsets();
    var k := 0;
    while k < |offsets|
      invariant FillState(cells, radius, grid, sizes, j, i, colour, offsets, k, g, s)
    {
      g, s := TryNeighbour(cells, radius, grid, sizes, i, j, colour, offsets, k, g, s);
      k := k + 1;
    }
    AllOffsetsDoneIsClosed(cells, radius, g, j, i, offsets);
  }

  /** One pass of the offset loop of `ColorFrom` with seed (i, j): the
      neighbour at offset k is skipped when it is out of the matrix, already
      coloured or not connexe with the seed, and filled from otherwise. */
  method TryNeighbour(cells: Cells, radius: real, grid: ColourGrid, sizes: seq<nat>, i: int, j: int, colour: int,
                      offsets: seq<Offset>, k: int, g: ColourGrid, s: seq<nat>)
    returns (g': ColourGrid, s': seq<nat>)
    requires IsSquare(cells) && |cells| <= MaxSide
    requires IsGrid(grid, |cells|)
    requires forall d :: d in offsets <==> IsNeighbourOffset(d.0, d.1)
    requires FillState(cells, radius, grid, sizes, j, i, colour, offsets, k, g, s) && k < |offsets|
    ensures FillState(cells, radius, grid, sizes, j, i, colour, offsets, k + 1, g', s')
    decreases ZeroCount(g), 1
  {
    var n := |cells|;
    g', s' := g, s;
    var d := offsets[k];
    var adjacentI := i + d.0;
    var adjacentJ := j + d.1;
    if adjacentI < 0 || adjacentI >= n {
      // out of the matrix horizontally
      NextOffsetDone(cells, radius, grid, sizes, j, i, colour, adjacentJ, adjacentI, offsets, k, g, s);
    } else if adjacentJ < 0 || adjacentJ >= n {
      // out of the matrix vertically
      NextOffsetDone(cells, radius, grid, sizes, j, i, colour, adjacentJ, adjacentI, offsets, k, g, s);
    } else if g[adjacentJ][adjacentI] != Uncoloured {
      // already coloured, or the sentinel
      NextOffsetDone(cells, radius, grid, sizes, j, i, colour, adjacentJ, adjacentI, offsets, k, g, s);
    } else {
      var linked := TwoCellsAreConnexe(cells[j][i], cells[adjacentJ][adjacentI], radius);
      if linked {
        ConnexeNeedsPoints(cells[j][i], cells[adjacentJ][adjacentI], radius);
        g', s' := ColorFrom(cells, radius, g, s, adjacentI, adjacentJ, colour);
        assert offsets[k] in offsets;
        FillStep(cells, radius, grid, sizes, j, i, colour, adjacentJ, adjacentI, offsets, k, g, s, g', s');
      } else {
        assert !Connexe(cells[j][i], cells[adjacentJ][adjacentI], radius);
        NextOffsetDone(cells, radius, grid, sizes, j, i, colour, adjacentJ, adjacentI, offsets, k, g, s);
      }
    }
  }

  /** A recursive fill g -> g', s -> s' from the uncoloured step neighbour
      (aj, ai) of the seed at offset k moves the loop on. */
  lemma FillStep(cells: Cells, radius: real, grid: ColourGrid, sizes: seq<nat>, j: int, i: int, colour: int,
                 aj: int, ai: int, offsets: seq<Offset>, k: int, g: ColourGrid, s: seq<nat>, g': ColourGrid, s': seq<nat>)
    requires IsSquare(cells) && IsGrid(grid, |cells|)
    requires FillState(cells, radius, grid, sizes, j, i, colour, offsets, k, g, s)
    requires k < |offsets| && offsets[k].0 == ai - i && offsets[k].1 == aj - j
    requires Edge(cells, radius, j, i, aj, ai)
    requires g[aj][ai] == Uncoloured
    requires IsGrid(g', |cells|) && g'[aj][ai] == colour
    requires Grows(g, g', colour)
    requires Filled(cells, radius, g, g', aj, ai) && ClosedAt(cells, radius, g', aj, ai)
    requires |s'| == |s|
    requires forall c :: 0 <= c < |s'| && c != colour - 1 ==> s'[c] == s[c]
    requires s'[colour - 1] == s[colour - 1] + Weight(cells, g', colour) - Weight(cells, g, colour)
    requires ZeroCount(g') < ZeroCount(g)
    ensures FillState(cells, radius, grid, sizes, j, i, colour, offsets, k + 1, g', s')
  {
    GrowsTransitive(grid, g, g', colour);
    EdgeJoinsOccupied(cells, radius, j, i, aj, ai);
    forall j2, i2 | InGrid(grid, j2, i2) && InGrid(g', j2, i2) && g'[j2][i2] != grid[j2][i2]
      ensures Connected(cells, radius, (j, i), (j2, i2))
      ensures (j2 == j && i2 == i) || (InCells(cells, j2, i2) && cells[j2][i2] != [] && ClosedAt(cells, radius, g', j2, i2))
    {
      assert InGrid(g, j2, i2);
      if g[j2][i2] != grid[j2][i2] {
        if j2 != j || i2 != i {
          GrowsKeepsClosed(cells, radius, g, g', colour, j2, i2);
        }
      } else {
        assert g'[j2][i2] != g[j2][i2];
        ConnectedStep(cells, radius, (j, i), (aj, ai), (j2, i2));
      }
    }
    OffsetsStayDone(cells, radius, g, g', colour, j, i, aj, ai, offsets, k);
  }

  /** Offsets 0 .. k - 1 stay done as the fill grows, and offset k, whose
      neighbour (aj, ai) is now coloured, is done too. */
  lemma OffsetsStayDone(cells: Cells, radius: real, g: ColourGrid, g': ColourGrid, colour: int,
                        j: int, i: int, aj: int, ai: int, offsets: seq<Offset>, k: int)
    requires Grows(g, g', colour)
    requires 0 <= k < |offsets| && offsets[k].0 == ai - i && offsets[k].1 == aj - j
    requires InGrid(g', aj, ai) && g'[aj][ai] != Uncoloured
    requires forall m :: 0 <= m < k ==> OffsetDone(cells, radius, g, j, i, offsets[m])
    ensures forall m :: 0 <= m <= k ==> OffsetDone(cells, radius, g', j, i, offsets[m])
  {
    forall m | 0 <= m < k
      ensures OffsetDone(cells, radius, g', j, i, offsets[m])
    {
      GrowsKeepsOffsetDone(cells, radius, g, g', colour, j, i, offsets[m]);
    }
  }
}

/** The labelling part of `main`: mark the empty cells with the sentinel,
    then sweep the cells in row-major order and start a fresh colour at every
    cell that is still uncoloured. */
module Labeller {
  import opened GridSums
  import opened Grid
  import opened FloodFill
  import opened Components

  /** The outcome of the sweep. The `u8` colour counter cannot mint a 255th
      colour: 255 is the sentinel, and incrementing past it overflows. */
  datatype Result<T> = Ok(value: T) | TooManyClusters

  /** The colour matrix and the size vector at the end of the sweep. */
  datatype Labelled = Labelled(grid: ColourGrid, sizes: seq<nat>)

  /** Some cell carries colour c. */
  ghost predicate Used(g: ColourGrid, c: int)
  {
    exists j, i :: InGrid(g, j, i) && g[j][i] == c
  }

  /** Every cell that cell (j, i) steps to carries the colour of (j, i). */
  ghost predicate SameColourAround(cells: Cells, radius: real, g: ColourGrid, j: int, i: int)
  {
    forall j2, i2 :: Edge(cells, radius, j, i, j2, i2) ==> InGrid(g, j, i) && InGrid(g, j2, i2) && g[j2][i2] == g[j][i]
  }

  /** The colour matrix is the sentinel exactly on the empty cells. */
  ghost predicate SentinelOnEmpty(cells: Cells, g: ColourGrid)
  {
    forall j, i :: InGrid(g, j, i) && InCells(cells, j, i) ==> (g[j][i] == Sentinel <==> cells[j][i] == [])
  }

  /** Every coloured cell carries one of the colours 1 .. next - 1. */
  ghost predicate ColoursBelow(g: ColourGrid, next: int)
  {
    forall j, i :: InGrid(g, j, i) && g[j][i] != Uncoloured && g[j][i] != Sentinel ==> 1 <= g[j][i] < next
  }

  /** Every cell of the colours 1 .. next - 1 has its colour all around it. */
  ghost predicate ColoursClosed(cells: Cells, radius: real, g: ColourGrid, next: int)
  {
    forall j, i :: InGrid(g, j, i) && 1 <= g[j][i] < next ==> SameColourAround(cells, radius, g, j, i)
  }

  /** Cell (j2, i2) comes before cell (j, i) in the sweep's row-major order. */
  predicate Before(j2: int, i2: int, j: int, i: int)
  {
    j2 < j || (j2 == j && i2 < i)
  }

  /** Some cell before (j, i) in row-major order carries colour c. */
  ghost predicate ColourBefore(g: ColourGrid, c: int, j: int, i: int)
  {
    exists j2, i2 :: InGrid(g, j2, i2) && Before(j2, i2, j, i) && g[j2][i2] == c
  }

  /** Some cell before (j, i) carries the colour one below that of (j, i). */
  ghost predicate FollowsPrevious(g: ColourGrid, j: int, i: int)
  {
    InGrid(g, j, i) && ColourBefore(g, g[j][i] - 1, j, i)
  }

  /** The colours 2 .. next - 1 are numbered in sweep order: every cell of
      colour c has a cell of colour c - 1 before it. (The trigger keeps the
      cells that `ColourBefore` names from setting off further instances.) */
  ghost predicate ColoursInOrder(g: ColourGrid, next: int)
  {
    forall j, i {:trigger FollowsPrevious(g, j, i)} :: InGrid(g, j, i) && 2 <= g[j][i] < next ==> FollowsPrevious(g, j, i)
  }

  /** `seeds[c - 1]` is the cell that minted colour c, for c in 1 .. next - 1:
      the seeds come in sweep order, each carries its colour, and no cell of
      that colour comes before it. */
  ghost predicate SeedsInOrder(g: ColourGrid, seeds: seq<Cell>, next: int)
  {
    && |seeds| == next - 1
    && (forall k :: 0 <= k < |seeds| ==> InGrid(g, seeds[k].0, seeds[k].1) && g[seeds[k].0][seeds[k].1] == k + 1)
    && (forall k :: 0 < k < |seeds| ==> Before(seeds[k - 1].0, seeds[k - 1].1, seeds[k].0, seeds[k].1))
    && (forall k, j, i :: 0 <= k < |seeds| && InGrid(g, j, i) && g[j][i] == k + 1 ==> !Before(j, i, seeds[k].0, seeds[k].1))
  }

  /** The state of the sweep before the cell that would mint colour `next`:
      colours 1 .. next - 1 have been minted, `sizes[c - 1]` is the number of
      points coloured c, the slot for `next` holds 0, every coloured cell has
      its colour all around it, and any two cells of one colour are
      connected. */
  ghost predicate SweepState(cells: Cells, radius: real, g: ColourGrid, sizes: seq<nat>, next: int)
  {
    && IsSquare(cells)
    && IsGrid(g, |cells|)
    && 1 <= next <= MaxColour + 1
    && |sizes| == next
    && sizes[next - 1] == 0
    && SentinelOnEmpty(cells, g)
    && ColoursBelow(g, next)
    && (forall c :: 1 <= c < next ==> sizes[c - 1] == Weight(cells, g, c))
    && ColoursClosed(cells, radius, g, next)
    && ColoursConnected(cells, radius, g, next)
  }

  /** The sentinel pass: starting from an all-zero matrix, every cell without
      points is set to 255. */
  method MarkEmpty(cells: Cells) returns (g: ColourGrid)
    requires IsSquare(cells)
    ensures IsGrid(g, |cells|)
    ensures SentinelOnEmpty(cells, g)
    ensures forall j, i :: InGrid(g, j, i) ==> (g[j][i] == Uncoloured <==> cells[j][i] != [])
  {
    var n := |cells|;
    g := seq(n, _ => seq(n, _ => Uncoloured));
    var i := 0;
    while i < n
      invariant 0 <= i <= n
      invariant IsGrid(g, n)
      invariant forall j2, i2 :: InGrid(g, j2, i2) ==>
        g[j2][i2] == (if i2 < i && cells[j2][i2] == [] then Sentinel else Uncoloured)
    {
      var j := 0;
      while j < n
        invariant 0 <= j <= n
        invariant IsGrid(g, n)
        invariant forall j2, i2 :: InGrid(g, j2, i2) ==>
          g[j2][i2] == (if (i2 < i || (i2 == i && j2 < j)) && cells[j2][i2] == [] then Sentinel else Uncoloured)
      {
        if !PointInCell(cells, i, j) {
          g := g[j := g[j][i := Sentinel]];
        }
        j := j + 1;
      }
      i := i + 1;
    }
  }

  /** The row-major sweep: every cell still uncoloured seeds a fresh colour,
      which the flood fill spreads; the counter then advances and a 0 is
      pushed as the size slot of the next colour.

      On success no cell is uncoloured, the sentinel marks exactly the empty
      cells, the occupied cells carry the colours 1 .. K, each of which is
      used, `sizes` holds the point count of each colour followed by one
      trailing 0, cells joined by a step carry the same colour, any two cells
      of one colour are connected, and colour c + 1 first appears after
      colour c. The sweep fails only when there are 255 occupied cells no two
      of which are connected, that is, at least 255 clusters. */
  method Sweep(cells: Cells, radius: real, start: ColourGrid) returns (r: Result<Labelled>)
    requires IsSquare(cells) && |cells| <= MaxSide
    requires IsGrid(start, |cells|)
    requires SentinelOnEmpty(cells, start)
    requires forall j, i :: InGrid(start, j, i) ==> (start[j][i] == Uncoloured <==> cells[j][i] != [])
    ensures r.Ok? ==> Swept(cells, radius, r.value)
    ensures r.TooManyClusters? ==> NonEmptyCount(cells) > MaxColour
    ensures r.TooManyClusters? ==> AtLeastClusters(cells, radius, MaxColour + 1)
  {
    var n := |cells|;
    var g := start;
    var sizes: seq<nat> := [0];
    ghost var seeds: seq<Cell> := [];
    StartCounts(cells, start);
    var j := 0;
    while j < n
      invariant 0 <= j <= n
      invariant SweptUpTo(cells, radius, g, sizes, seeds, j, 0)
    {
      var v;
      v, seeds := SweepRow(cells, radius, g, sizes, seeds, j);
      if v.TooManyClusters? {
        return TooManyClusters;
      }
      g, sizes := v.value.grid, v.value.sizes;
      j := j + 1;
    }
    SweepFinished(cells, radius, g, sizes, seeds, |sizes|);
    return Ok(Labelled(g, sizes));
  }

  /** The sweep over row j, column by column. */
  method SweepRow(cells: Cells, radius: real, g: ColourGrid, sizes: seq<nat>, ghost seeds: seq<Cell>, j: int)
    returns (r: Result<Labelled>, ghost seeds': seq<Cell>)
    requires |cells| <= MaxSide
    requires 0 <= j < |cells|
    requires SweptUpTo(cells, radius, g, sizes, seeds, j, 0)
    ensures r.Ok? ==> SweptUpTo(cells, radius, r.value.grid, r.value.sizes, seeds', j + 1, 0)
    ensures r.TooManyClusters? ==> NonEmptyCount(cells) > MaxColour
    ensures r.TooManyClusters? ==> AtLeastClusters(cells, radius, MaxColour + 1)
  {
    var n := |cells|;
    var g', sizes' := g, sizes;
    seeds' := seeds;
    var i := 0;
    while i < n
      invariant 0 <= i <= n
      invariant SweptUpTo(cells, radius, g', sizes', seeds', j, i)
    {
      var v;
      v, seeds' := Visit(cells, radius, g', sizes', j, i, seeds');
      if v.TooManyClusters? {
        return TooManyClusters, seeds';
      }
      g', sizes' := v.value.grid, v.value.sizes;
      i := i + 1;
    }
    return Ok(Labelled(g', sizes')), seeds';
  }

  /** The sweep has passed every cell before (j, i) in row-major order: the
      sweep invariant holds with |sizes| as the next colour, `seeds` lists
      where each colour was minted, no passed cell is uncoloured, the latest
      seed is a passed cell, and every minted colour used up at least one of
      the occupied cells that started uncoloured. */
  ghost predicate SweptUpTo(cells: Cells, radius: real, g: ColourGrid, sizes: seq<nat>, seeds: seq<Cell>, j: int, i: int)
  {
    && SweepState(cells, radius, g, sizes, |sizes|)
    && SeedsInOrder(g, seeds, |sizes|)
    && (forall j2, i2 :: InGrid(g, j2, i2) && Before(j2, i2, j, i) ==> g[j2][i2] != Uncoloured)
    && (|seeds| > 0 ==> Before(seeds[|seeds| - 1].0, seeds[|seeds| - 1].1, j, i))
    && |sizes| - 1 + ZeroCount(g) <= NonEmptyCount(cells)
  }

  /** One step of the sweep at cell (j, i): an uncoloured cell mints the
      next colour, fills from it and pushes a 0 slot; any other cell is
      passed over. Minting fails once 254 colours exist: a cell of each of
      them and this cell make 255 cells no two of which are connected. */
  method Visit(cells: Cells, radius: real, g: ColourGrid, sizes: seq<nat>, j: int, i: int, ghost seeds: seq<Cell>)
    returns (r: Result<Labelled>, ghost seeds': seq<Cell>)
    requires |cells| <= MaxSide
    requires 0 <= j < |cells| && 0 <= i < |cells|
    requires SweptUpTo(cells, radius, g, sizes, seeds, j, i)
    ensures r.Ok? ==> SweptUpTo(cells, radius, r.value.grid, r.value.sizes, seeds', j, i + 1)
    ensures r.TooManyClusters? ==> NonEmptyCount(cells) > MaxColour
    ensures r.TooManyClusters? ==> AtLeastClusters(cells, radius, MaxColour + 1)
  {
    var colour := |sizes|;
    if g[j][i] != Uncoloured {
      return Ok(Labelled(g, sizes)), seeds;
    }
    if colour > MaxColour {
      NoColourLeft(cells, radius, g, sizes, seeds, j, i);
      return TooManyClusters, seeds;
    }
    var l := Mint(cells, radius, g, sizes, seeds, j, i);
    return Ok(l), seeds + [(j, i)];
  }

  /** With 254 colours minted, an uncoloured cell left means more than 254
      occupied cells and at least 255 clusters. */
  lemma NoColourLeft(cells: Cells, radius: real, g: ColourGrid, sizes: seq<nat>, seeds: seq<Cell>, j: int, i: int)
    requires SweptUpTo(cells, radius, g, sizes, seeds, j, i)
    requires InGrid(g, j, i) && g[j][i] == Uncoloured && |sizes| > MaxColour
    ensures NonEmptyCount(cells) > MaxColour
    ensures AtLeastClusters(cells, radius, MaxColour + 1)
  {
    UncolouredCellCounts(g, j, i);
    var s := ClustersSoFar(cells, radius, g, sizes, seeds, j, i);
  }

  /** Mint colour |sizes| at uncoloured cell (j, i): fill from the cell and
      push a 0 as the size slot of the colour after. The cell becomes the
      seed of the new colour. */
  method Mint(cells: Cells, radius: real, g: ColourGrid, sizes: seq<nat>, ghost seeds: seq<Cell>, j: int, i: int)
    returns (l: Labelled)
    requires |cells| <= MaxSide
    requires 0 <= j < |cells| && 0 <= i < |cells|
    requires SweptUpTo(cells, radius, g, sizes, seeds, j, i)
    requires g[j][i] == Uncoloured && |sizes| <= MaxColour
    ensures SweptUpTo(cells, radius, l.grid, l.sizes, seeds + [(j, i)], j, i + 1)
    ensures |l.sizes| == |sizes| + 1
  {
    var g', s' := ColorFrom(cells, radius, g, sizes, i, j, |sizes|);
    l := Labelled(g', s' + [0]);
    MintAdvances(cells, radius, g, sizes, seeds, j, i, g', s', l);
  }

  /** Minting a colour at uncoloured cell (j, i) moves the sweep past it: the
      fill coloured the cell, and it used up at least one uncoloured cell for
      the one colour it added. */
  lemma MintAdvances(cells: Cells, radius: real, g: ColourGrid, sizes: seq<nat>, seeds: seq<Cell>, j: int, i: int,
                     g': ColourGrid, s': seq<nat>, l: Labelled)
    requires SweptUpTo(cells, radius, g, sizes, seeds, j, i)
    requires |sizes| <= MaxColour
    requires InGrid(g, j, i) && g[j][i] == Uncoloured
    requires IsGrid(g', |cells|)
    requires g'[j][i] == |sizes|
    requires Grows(g, g', |sizes|)
    requires Filled(cells, radius, g, g', j, i) && ClosedAt(cells, radius, g', j, i)
    requires |s'| == |sizes|
    requires forall k :: 0 <= k < |s'| && k != |sizes| - 1 ==> s'[k] == sizes[k]
    requires s'[|sizes| - 1] == sizes[|sizes| - 1] + Weight(cells, g', |sizes|) - Weight(cells, g, |sizes|)
    requires ZeroCount(g') < ZeroCount(g)
    requires l == Labelled(g', s' + [0])
    ensures SweptUpTo(cells, radius, l.grid, l.sizes, seeds + [(j, i)], j, i + 1)
  {
    NewCluster(cells, radius, g, sizes, seeds, |sizes|, j, i, g', s');
    forall j2, i2 | InGrid(g', j2, i2) && Before(j2, i2, j, i + 1)
      ensures g'[j2][i2] != Uncoloured
    {
      assert InGrid(g, j2, i2);
    }
    assert Before(j, i, j, i + 1);
  }

  /** The result of a completed sweep: with K = |sizes| - 1 colours minted. */
  ghost predicate Swept(cells: Cells, radius: real, l: Labelled)
  {
    var g := l.grid;
    var k := |l.sizes| - 1;
    && IsGrid(g, |cells|)
    && 0 <= k <= MaxColour
    && l.sizes[k] == 0
    && SentinelOnEmpty(cells, g)
    && (forall j, i :: InGrid(g, j, i) ==> g[j][i] != Uncoloured)
    && (forall j, i :: InGrid(g, j, i) && InCells(cells, j, i) && cells[j][i] != [] ==> 1 <= g[j][i] <= k)
    && (forall c :: 1 <= c <= k ==> l.sizes[c - 1] == Weight(cells, g, c) && Used(g, c))
    && StepsKeepColour(cells, radius, g)
    && ColoursConnected(cells, radius, g, k + 1)
    && ColoursInOrder(g, k + 1)
  }

  /** A sweep state with no uncoloured cell left is a completed sweep. */
  lemma SweepFinished(cells: Cells, radius: real, g: ColourGrid, sizes: seq<nat>, seeds: seq<Cell>, next: int)
    requires SweepState(cells, radius, g, sizes, next) && SeedsInOrder(g, seeds, next)
    requires forall j, i :: InGrid(g, j, i) ==> g[j][i] != Uncoloured
    ensures Swept(cells, radius, Labelled(g, sizes))
  {
    SeedsNumberColours(g, seeds, next);
    forall j, i, j2, i2 | Edge(cells, radius, j, i, j2, i2)
      ensures InGrid(g, j, i) && InGrid(g, j2, i2) && g[j][i] == g[j2][i2]
    {
      EdgeJoinsOccupied(cells, radius, j, i, j2, i2);
      assert SameColourAround(cells, radius, g, j, i);
    }
  }

  /** Before the sweep no colour is minted and the uncoloured cells are the
      occupied ones. */
  lemma StartCounts(cells: Cells, start: ColourGrid)
    requires IsSquare(cells) && IsGrid(start, |cells|)
    requires forall j, i :: InGrid(start, j, i) ==> (start[j][i] == Uncoloured <==> cells[j][i] != [])
    ensures ZeroCount(start) == NonEmptyCount(cells)
  {
    GridSumCongruent(|cells|, |cells|, IsUncoloured(start), IsOccupied(cells));
  }

  /** No cell carries a colour not minted yet, so its weight is 0. */
  lemma UnusedColourWeighsNothing(cells: Cells, g: ColourGrid, c: int)
    requires IsSquare(cells) && IsGrid(g, |cells|)
    requires forall j, i :: InGrid(g, j, i) ==> g[j][i] != c
    ensures Weight(cells, g, c) == 0
  {
    var n := |cells|;
    GridSumCongruent(n, n, PointsColoured(cells, g, c), (j: int, i: int) => 0);
    GridSumZero(n, n);
  }

  /** A fill that only recolours uncoloured cells leaves the weight of every
      other colour unchanged. */
  lemma GrowsKeepsOtherWeights(cells: Cells, g: ColourGrid, g': ColourGrid, colour: int, c: int)
    requires IsSquare(cells) && IsGrid(g, |cells|) && IsGrid(g', |cells|)
    requires Grows(g, g', colour)
    requires c != colour && c != Uncoloured
    ensures Weight(cells, g', c) == Weight(cells, g, c)
  {
    GridSumCongruent(|cells|, |cells|, PointsColoured(cells, g, c), PointsColoured(cells, g', c));
  }

  /** Minting colour `next` at an uncoloured cell and filling from it keeps
      the sweep state, with `next + 1` as the colour to mint after. */
  lemma NewCluster(cells: Cells, radius: real, g: ColourGrid, sizes: seq<nat>, seeds: seq<Cell>, next: int, j: int, i: int,
                   g': ColourGrid, s': seq<nat>)
    requires SweptUpTo(cells, radius, g, sizes, seeds, j, i) && next == |sizes|
    requires next <= MaxColour
    requires InGrid(g, j, i) && g[j][i] == Uncoloured
    requires IsGrid(g', |cells|)
    requires g'[j][i] == next
    requires Grows(g, g', next)
    requires Filled(cells, radius, g, g', j, i) && ClosedAt(cells, radius, g', j, i)
    requires |s'| == |sizes|
    requires forall k :: 0 <= k < |s'| && k != next - 1 ==> s'[k] == sizes[k]
    requires s'[next - 1] == sizes[next - 1] + Weight(cells, g', next) - Weight(cells, g, next)
    ensures SweepState(cells, radius, g', s' + [0], next + 1)
    ensures SeedsInOrder(g', seeds + [(j, i)], next + 1)
  {
    var n := |cells|;
    var sizes' := s' + [0];
    // the seed holds points, since it is not the sentinel
    assert cells[j][i] != [];
    forall j2, i2 | InGrid(g', j2, i2)
      ensures g'[j2][i2] == Sentinel <==> cells[j2][i2] == []
    {
      assert InGrid(g, j2, i2);
    }
    NewClusterSizes(cells, g, sizes, next, j, i, g', s');
    forall j1, i1 | InGrid(g', j1, i1) && 1 <= g'[j1][i1] < next + 1
      ensures SameColourAround(cells, radius, g', j1, i1)
    {
      NewClusterAround(cells, radius, g, next, j, i, g', j1, i1);
    }
    NewClusterConnected(cells, radius, g, next, j, i, g');
    NewSeedInOrder(g, seeds, next, j, i, g');
  }

  /** The new colour's seed comes after the old seeds, and no cell of the
      new colour comes before it: the fill only coloured cells that were
      uncoloured, and every cell before the seed was already coloured. */
  lemma NewSeedInOrder(g: ColourGrid, seeds: seq<Cell>, next: int, j: int, i: int, g': ColourGrid)
    requires next != Uncoloured && next != Sentinel
    requires ColoursBelow(g, next) && SeedsInOrder(g, seeds, next)
    requires InGrid(g', j, i) && g'[j][i] == next
    requires Grows(g, g', next)
    requires forall j2, i2 :: InGrid(g, j2, i2) && Before(j2, i2, j, i) ==> g[j2][i2] != Uncoloured
    requires |seeds| > 0 ==> Before(seeds[|seeds| - 1].0, seeds[|seeds| - 1].1, j, i)
    ensures SeedsInOrder(g', seeds + [(j, i)], next + 1)
  {
    var seeds' := seeds + [(j, i)];
    forall k | 0 <= k < |seeds'|
      ensures InGrid(g', seeds'[k].0, seeds'[k].1) && g'[seeds'[k].0][seeds'[k].1] == k + 1
    {
      if k < |seeds| {
        assert seeds'[k] == seeds[k];
        assert g'[seeds[k].0][seeds[k].1] == g[seeds[k].0][seeds[k].1];
      }
    }
    forall k, j1, i1 | 0 <= k < |seeds'| && InGrid(g', j1, i1) && g'[j1][i1] == k + 1
      ensures !Before(j1, i1, seeds'[k].0, seeds'[k].1)
    {
      assert InGrid(g, j1, i1);
      if g'[j1][i1] != g[j1][i1] {
        // a new cell: uncoloured before the fill, so not before the seed
        assert !Before(j1, i1, j, i);
      } else {
        assert seeds'[k] == seeds[k];
      }
    }
  }

  /** Seeds listed in sweep order number the colours in sweep order, and
      each minted colour is used. */
  lemma SeedsNumberColours(g: ColourGrid, seeds: seq<Cell>, next: int)
    requires SeedsInOrder(g, seeds, next)
    ensures ColoursInOrder(g, next)
    ensures forall c :: 1 <= c < next ==> Used(g, c)
  {
    forall j, i | InGrid(g, j, i) && 2 <= g[j][i] < next
      ensures FollowsPrevious(g, j, i)
    {
      var c := g[j][i];
      var (j1, i1) := seeds[c - 2];
      assert Before(j1, i1, seeds[c - 1].0, seeds[c - 1].1);
      assert g[j1][i1] == c - 1 && Before(j1, i1, j, i);
    }
    forall c | 1 <= c < next
      ensures Used(g, c)
    {
      assert g[seeds[c - 1].0][seeds[c - 1].1] == c;
    }
  }

  /** Every cell of colour c' has, before it in sweep order, a cell of every
      smaller colour c: the first cell of colour c comes before the first
      cell of colour c'. */
  lemma {:induction false} EarlierColoursBefore(g: ColourGrid, next: int, j: int, i: int, c: int)
    requires ColoursInOrder(g, next)
    requires InGrid(g, j, i) && 1 <= c < g[j][i] < next
    ensures ColourBefore(g, c, j, i)
    decreases g[j][i] - c
  {
    assert FollowsPrevious(g, j, i);
    var j2, i2 :| InGrid(g, j2, i2) && Before(j2, i2, j, i) && g[j2][i2] == g[j][i] - 1;
    if c < g[j][i] - 1 {
      EarlierColoursBefore(g, next, j2, i2, c);
      var j3, i3 :| InGrid(g, j3, i3) && Before(j3, i3, j2, i2) && g[j3][i3] == c;
      assert Before(j3, i3, j, i);
    }
  }

  /** Mid-sweep, a path of steps from a cell of a minted colour stays in that
      colour, since that colour is all around each of its cells. */
  lemma {:induction false} ClosedPathKeepsColour(cells: Cells, radius: real, g: ColourGrid, next: int, p: seq<Cell>)
    requires ColoursClosed(cells, radius, g, next)
    requires IsPath(cells, radius, p)
    requires InGrid(g, p[0].0, p[0].1) && 1 <= g[p[0].0][p[0].1] < next
    ensures InGrid(g, p[|p| - 1].0, p[|p| - 1].1) && g[p[|p| - 1].0][p[|p| - 1].1] == g[p[0].0][p[0].1]
    decreases |p|
  {
    if |p| > 1 {
      assert Edge(cells, radius, p[0].0, p[0].1, p[1].0, p[1].1);
      assert SameColourAround(cells, radius, g, p[0].0, p[0].1);
      var rest: seq<Cell> := p[1..];
      assert forall k :: 0 <= k < |rest| ==> rest[k] == p[k + 1];
      assert IsPath(cells, radius, rest);
      ClosedPathKeepsColour(cells, radius, g, next, rest);
    }
  }

  /** A cell of a minted colour is connected, either way, to no cell of
      another colour. */
  lemma ClosedColoursApart(cells: Cells, radius: real, g: ColourGrid, next: int, a: Cell, b: Cell)
    requires ColoursClosed(cells, radius, g, next)
    requires InGrid(g, a.0, a.1) && InGrid(g, b.0, b.1)
    requires 1 <= g[a.0][a.1] < next && g[b.0][b.1] != g[a.0][a.1]
    ensures !Connected(cells, radius, a, b) && !Connected(cells, radius, b, a)
  {
    if Connected(cells, radius, a, b) {
      var p: seq<Cell> :| IsPath(cells, radius, p) && p[0] == a && p[|p| - 1] == b;
      ClosedPathKeepsColour(cells, radius, g, next, p);
    }
    if Connected(cells, radius, b, a) {
      ConnectedSymmetric(cells, radius, b, a);
    }
  }

  /** Mid-sweep, a cell of each minted colour together with an uncoloured
      cell are occupied cells no two of which are connected. */
  lemma ClustersSoFar(cells: Cells, radius: real, g: ColourGrid, sizes: seq<nat>, seeds: seq<Cell>, j: int, i: int)
    returns (s: seq<Cell>)
    requires SweepState(cells, radius, g, sizes, |sizes|) && SeedsInOrder(g, seeds, |sizes|)
    requires InGrid(g, j, i) && g[j][i] == Uncoloured
    ensures |s| == |sizes| && Separate(cells, radius, s)
    ensures AtLeastClusters(cells, radius, |sizes|)
  {
    var next := |sizes|;
    s := seeds + [(j, i)];
    assert forall k :: 0 <= k < next - 1 ==> s[k] == seeds[k];
    forall k | 0 <= k < |s|
      ensures InCells(cells, s[k].0, s[k].1) && cells[s[k].0][s[k].1] != []
    {
      assert InGrid(g, s[k].0, s[k].1) && g[s[k].0][s[k].1] != Sentinel;
    }
    forall k1, k2 | 0 <= k1 < |s| && 0 <= k2 < |s| && k1 != k2
      ensures !Connected(cells, radius, s[k1], s[k2])
    {
      if k1 < next - 1 {
        ClosedColoursApart(cells, radius, g, next, s[k1], s[k2]);
      } else {
        ClosedColoursApart(cells, radius, g, next, s[k2], s[k1]);
      }
    }
  }

  /** The sizes after the fill and the pushed 0 slot: the new colour's slot
      holds its point count, since it weighed nothing before, and the old
      colours keep their cells and their counts. */
  lemma NewClusterSizes(cells: Cells, g: ColourGrid, sizes: seq<nat>, next: int, j: int, i: int,
                        g': ColourGrid, s': seq<nat>)
    requires IsSquare(cells) && IsGrid(g, |cells|) && IsGrid(g', |cells|)
    requires 1 <= next <= MaxColour && |sizes| == next && sizes[next - 1] == 0
    requires ColoursBelow(g, next)
    requires forall c :: 1 <= c < next ==> sizes[c - 1] == Weight(cells, g, c)
    requires InGrid(g, j, i) && g'[j][i] == next
    requires Grows(g, g', next)
    requires |s'| == |sizes|
    requires forall k :: 0 <= k < |s'| && k != next - 1 ==> s'[k] == sizes[k]
    requires s'[next - 1] == sizes[next - 1] + Weight(cells, g', next) - Weight(cells, g, next)
    ensures forall c :: 1 <= c < next + 1 ==> (s' + [0])[c - 1] == Weight(cells, g', c)
  {
    UnusedColourWeighsNothing(cells, g, next);
    forall c | 1 <= c < next
      ensures (s' + [0])[c - 1] == Weight(cells, g', c)
    {
      GrowsKeepsOtherWeights(cells, g, g', next, c);
    }
  }

  /** Two cells of one colour are still connected after the fill: an old
      colour kept its cells, and every cell of the new colour is connected to
      the seed. */
  lemma NewClusterConnected(cells: Cells, radius: real, g: ColourGrid, next: int, j: int, i: int, g': ColourGrid)
    requires next != Uncoloured && next != Sentinel
    requires ColoursBelow(g, next) && ColoursConnected(cells, radius, g, next)
    requires Grows(g, g', next)
    requires Filled(cells, radius, g, g', j, i)
    ensures ColoursConnected(cells, radius, g', next + 1)
  {
    forall j1, i1, j2, i2 | InGrid(g', j1, i1) && InGrid(g', j2, i2) && 1 <= g'[j1][i1] < next + 1 && g'[j2][i2] == g'[j1][i1]
      ensures Connected(cells, radius, (j1, i1), (j2, i2))
    {
      assert InGrid(g, j1, i1) && InGrid(g, j2, i2);
      if g'[j1][i1] == next {
        // both cells are new: each is connected to the seed
        assert g'[j1][i1] != g[j1][i1] && g'[j2][i2] != g[j2][i2];
        ConnectedSymmetric(cells, radius, (j, i), (j1, i1));
        ConnectedTransitive(cells, radius, (j1, i1), (j, i), (j2, i2));
      } else {
        assert g[j1][i1] == g'[j1][i1] && g[j2][i2] == g'[j2][i2];
      }
    }
  }

  /** The colour around one cell after the fill: old colours were closed
      before and their neighbours did not change; a newly coloured cell has
      every neighbour coloured, and a neighbour of an old colour would have
      pulled the new cell into that colour already. */
  lemma NewClusterAround(cells: Cells, radius: real, g: ColourGrid, next: int, j: int, i: int,
                         g': ColourGrid, j1: int, i1: int)
    requires SentinelOnEmpty(cells, g) && ColoursBelow(g, next) && ColoursClosed(cells, radius, g, next)
    requires Grows(g, g', next)
    requires next != Uncoloured && next != Sentinel
    requires Filled(cells, radius, g, g', j, i) && ClosedAt(cells, radius, g', j, i)
    requires InGrid(g', j1, i1) && 1 <= g'[j1][i1] < next + 1
    ensures SameColourAround(cells, radius, g', j1, i1)
  {
    assert InGrid(g, j1, i1);
    forall j2, i2 | Edge(cells, radius, j1, i1, j2, i2)
      ensures InGrid(g', j2, i2) && g'[j2][i2] == g'[j1][i1]
    {
      assert InGrid(g, j2, i2);
      EdgeJoinsOccupied(cells, radius, j1, i1, j2, i2);
      if g[j1][i1] == g'[j1][i1] {
        // an old colour: its neighbour already had that colour
        assert SameColourAround(cells, radius, g, j1, i1);
        assert g[j2][i2] == g[j1][i1];
      } else {
        // newly coloured: the neighbour is coloured after the fill
        assert ClosedAt(cells, radius, g', j1, i1) by {
          if j1 != j || i1 != i {
            assert InGrid(g', j1, i1) && g'[j1][i1] != g[j1][i1];
          }
        }
        NewCellAround(cells, radius, g, next, g', j1, i1, j2, i2);
      }
    }
  }

  /** A neighbour of a newly coloured cell ends with the new colour: it is
      coloured after the fill, and had it carried an old colour before, that
      colour would have reached the new cell already. */
  lemma NewCellAround(cells: Cells, radius: real, g: ColourGrid, next: int, g': ColourGrid,
                      j1: int, i1: int, j2: int, i2: int)
    requires SentinelOnEmpty(cells, g) && ColoursBelow(g, next) && ColoursClosed(cells, radius, g, next)
    requires Grows(g, g', next)
    requires InGrid(g, j1, i1) && g[j1][i1] == Uncoloured && g'[j1][i1] == next
    requires Edge(cells, radius, j1, i1, j2, i2)
    requires ClosedAt(cells, radius, g', j1, i1)
    ensures InGrid(g', j2, i2) && g'[j2][i2] == next
  {
    EdgeSymmetric(cells, radius, j1, i1, j2, i2);
    EdgeJoinsOccupied(cells, radius, j1, i1, j2, i2);
    assert InGrid(g, j2, i2);
    assert g[j2][i2] != Uncoloured ==> SameColourAround(cells, radius, g, j2, i2);
  }
}

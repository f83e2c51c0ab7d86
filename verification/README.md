# Grid flood-fill clustering, modelled in Dafny

This project models the clustering core of a small Rust program. The program groups 2D points
into single-linkage clusters at a fixed `radius`. It bins the points into an N x N grid of
square cells. It marks every empty cell with the sentinel colour 255. It then sweeps the cells
in row-major order. Every cell still at colour 0 starts a new colour. A recursive flood fill
(`add_color_to_matrix_cell`) spreads that colour to every in-bounds, uncoloured neighbour at
one of 20 fixed offsets whose points come within `radius` of the current cell's points
(`two_cells_are_connexe`). Along the way the fill adds each cell's point count to the size of
its colour. Finally the trailing size slot is popped and the sizes are sorted largest first.

The model keeps the source's indexing: `cells[j][i]` and `grid[j][i]`, with the row `j`
derived from y and the column `i` from x. The offset `(x_offset, y_offset)` moves the column
by its first component and the row by its second. The colour matrix and the size vector are
values: each step takes them and returns their new contents. Coordinates are exact `real`s,
so the adjacency test `(x2 - x1)^2 + (y2 - y1)^2 <= radius^2` is exact, and equality counts
as adjacent.

The central result is about `Cluster`. Call a "step" a move from an occupied cell to an
in-bounds offset neighbour that is connexe with it. On success, two occupied cells carry the
same colour exactly when a path of steps joins them. So the clusters are the connected
components of the step relation. The size reported for each cluster is its point count.

Modules, leaf first:

- `GridSums` (grid_sums.dfy): sums of a function over an N x N grid. It proves monotonicity,
  congruence, additivity and the effect of changing one cell.
- `Geometry` (geometry.dfy): points, squared distance, the `Connexe` predicate and the
  pairwise test `TwoCellsAreConnexe`.
- `Offsets` (offsets.dfy): the neighbour offset set and the loops that build it.
- `Grid` (grid.dfy): cells, the colour matrix, constants (0, the sentinel 255, the type
  bounds), counts (uncoloured cells, points per colour, all points, occupied cells) and the
  `Edge` relation. An `Edge` is an offset neighbour that is also connexe.
- `Components` (components.dfy): paths of steps, connectivity, and what it means for the
  colours to be the connected components of the occupied cells.
- `FloodFill` (flood_fill.dfy): `ColorFrom`, the recursive fill, and `TryNeighbour`, the body
  of its loop over the offsets.
- `Labeller` (labeller.dfy): the sentinel pass `MarkEmpty` and the row-major `Sweep`, with its
  per-row loop `SweepRow`, its per-cell step `Visit` and the colour-minting step `Mint`.
- `SizeList` (size_list.dfy): pop, sort, reverse.
- `Binning` (binning.dfy): pushing each point onto its cell's list.
- `Clustering` (clustering.dfy): the whole run, `Cluster`.
- `TextInput` (text_input.dfy): `trim_newline`.
- `Invariance` (invariance.dfy): a successful run's report is unique, and does not depend on
  the order of the input points.
- `Monotonicity` (monotonicity.dfy): over the same cells, a larger radius splits no cluster and
  reports no more clusters.

The facts `Cluster` promises on success fix its report. Over one grid and radius, any two
reports with those facts are equal (`Invariance.ReportUnique`). So running again on the same
input gives the same report. Reordering the input points gives the same report as well
(`Invariance.ReportOrderInvariant`): each cell ends up with the same points, only in another
order, and nothing downstream sees that order. Reordering also cannot turn a success into a
failure (`Invariance.OutcomeOrderInvariant`).

## Model

| member | source | states |
|---|---|---|
| `Geometry.TwoCellsAreConnexe` | src/main.rs:228-248 | returns true exactly when some point of the first cell and some point of the second are at squared distance at most radius squared; returns false when no pair qualifies |
| `Geometry.ConnexeSymmetric` | src/main.rs:236-247 | the adjacency test gives the same answer with its two cells swapped |
| `Geometry.ConnexeNeedsPoints` | src/main.rs:240-247 | a cell with no points is adjacent to nothing |
| `Geometry.BoundaryDistanceIsConnexe` | src/main.rs:242 | two points at distance exactly radius make their cells adjacent (the test uses <=) |
| `Offsets.NeighbourOffsets` | src/main.rs:148-156 | the offsets built are exactly the (dx, dy) in [-2,2]^2 with abs(dx)+abs(dy) not 0 or 4, in strictly increasing dx-major order, so without duplicates |
| `Offsets.LoopResultIsTable` | src/main.rs:148-156 | the only dx-major increasing sequence of exactly those offsets is the 20-entry table, so the loops produce that table |
| `Offsets.OffsetTableExact` | src/main.rs:149-153 | the table holds every neighbour offset and nothing else, in increasing order |
| `Offsets.OffsetsShape` | src/main.rs:148-156 | there are 20 offsets, pairwise distinct |
| `Offsets.OffsetsNegate` | src/main.rs:149-153 | an offset is a neighbour offset exactly when its negation is one |
| `Grid.EdgeSymmetric` | src/main.rs:181-213 | the fill's step relation (in-bounds offset neighbour and connexe) is symmetric |
| `Grid.EdgeJoinsOccupied` | src/main.rs:203-213 | a step only ever joins two cells that hold points |
| `Grid.ColourOneCell` | src/main.rs:142-146 | colouring one uncoloured cell removes one uncoloured cell, adds that cell's point count to its colour's total and leaves every other colour's total unchanged |
| `FloodFill.ColorFrom` | src/main.rs:131-226 | colours the seed; changes only uncoloured cells, and only to the fill colour, never a sentinel or another colour; every cell it colours is joined to the seed by a path of steps, and every one besides the seed holds points; every cell it colours ends with all its in-bounds connexe offset neighbours coloured; the fill colour's size grows by exactly the points of the cells it coloured and no other size changes; the number of uncoloured cells strictly drops, which bounds the recursion |
| `FloodFill.TryNeighbour` | src/main.rs:181-224 | one offset of the loop: a neighbour out of bounds, already coloured or not connexe is skipped, and otherwise the fill recurses into it; afterwards that offset's neighbour is coloured or not a step away, every cell coloured so far is joined to the seed by a path, only uncoloured cells changed, and the fill colour's size still counts exactly the points coloured |
| `Components.ConnectedSymmetric` | src/main.rs:181-224 | a path of fill steps can be walked backwards, since the offsets are closed under negation and the adjacency test is symmetric |
| `Components.ConnectedTransitive` | src/main.rs:181-224 | two paths of steps that meet at a cell join into one path |
| `Components.PathKeepsColour` | src/main.rs:203-224 | when every step joins two cells of one colour, both ends of every path carry the same colour |
| `Components.ComponentsFromColours` | src/main.rs:83-104 | if steps keep colours, any two cells of one colour are joined by a path, and every occupied cell carries one of the colours 1..K, then two occupied cells share a colour exactly when a path joins them |
| `Labeller.MarkEmpty` | src/main.rs:71-78 | from an all-zero matrix, a cell ends up 255 exactly when it holds no points, and 0 exactly when it holds some; the test it calls per cell, `Grid.PointInCell` (`point_in_cell`, src/main.rs:250-252), holds exactly when the cell's point list is non-empty |
| `Labeller.Sweep` | src/main.rs:83-104 | on success no cell is uncoloured; 255 marks exactly the empty cells; occupied cells carry colours 1..K, each of which is used; each size slot c-1 holds the point count of colour c, followed by a trailing 0; cells joined by a step share a colour, and any two cells of one colour are joined by a path of steps; colours are numbered in row-major order of their first cells, so every cell of colour c >= 2 has a cell of colour c-1 before it in row-major order. It fails only when there are 255 occupied cells no two of which are joined by a path, that is, at least 255 clusters, and so more than 254 occupied cells |
| `Labeller.SweepRow` | src/main.rs:84-102 | the sweep over one row: on success every cell of the row and of the rows above is coloured and the sweep invariant holds at the start of the next row; it fails only when there are 255 occupied cells no two of which are joined by a path |
| `Labeller.Visit` | src/main.rs:84-102 | at one cell in row-major order: a coloured cell is passed over; at an uncoloured cell, minting fails only once 254 colours exist, and then a cell of each colour plus this cell are 255 occupied cells no two of which are joined by a path; otherwise every cell up to and including this one is coloured, the cell becomes the seed of the new colour after all earlier seeds, and the sweep invariant still holds |
| `Labeller.Mint` | src/main.rs:85-101 | filling from an uncoloured cell with the next colour and pushing a 0 slot leaves that cell and all earlier ones coloured, keeps the sweep invariant, records the cell as the first cell of the new colour, and adds exactly one size slot |
| `Labeller.NewSeedInOrder` | src/main.rs:83-101 | the cell that mints the next colour comes after every earlier colour's first cell, and the fill gives the new colour no cell before it, since every earlier cell was already coloured |
| `Labeller.SeedsNumberColours` | src/main.rs:83-101 | first cells listed in row-major order number the colours in that order: every cell of colour c >= 2 has a cell of colour c-1 before it, and every colour minted is used |
| `Labeller.EarlierColoursBefore` | src/main.rs:83-101 | with colours numbered in sweep order, every cell of colour c' has a cell of each smaller colour c before it, so the first cell of colour c precedes the first cell of colour c' |
| `Labeller.ClosedPathKeepsColour` | src/main.rs:181-224 | mid-sweep, a path of steps starting at a cell of a minted colour ends at a cell of that colour, because each minted colour is closed under steps |
| `Labeller.ClosedColoursApart` | src/main.rs:181-224 | mid-sweep, a cell of a minted colour is joined by no path, in either direction, to a cell of any other colour |
| `Labeller.ClustersSoFar` | src/main.rs:85-101 | mid-sweep, the first cell of each minted colour together with any uncoloured cell form as many occupied cells as there are size slots, no two of which are joined by a path, so there are at least that many clusters |
| `Labeller.NoColourLeft` | src/main.rs:85-102 | meeting an uncoloured cell with 254 colours already minted means more than 254 occupied cells and at least 255 clusters |
| `Grid.UncolouredCellCounts` | src/main.rs:85 | a cell still at colour 0 counts towards the uncoloured cells, so at least one is left |
| `Labeller.NewClusterConnected` | src/main.rs:85-101 | after a fill, any two cells of one colour are still joined by a path: old colours keep their cells, and every cell of the new colour is joined to the seed |
| `Labeller.SweepFinished` | src/main.rs:83-104 | once no cell is uncoloured, the sweep invariant gives the finished sweep: every step joins two cells of one colour, every colour is used, and the colours are numbered in row-major order of their first cells |
| `Labeller.NewCluster` | src/main.rs:85-101 | minting the next colour at an uncoloured cell, filling from it and pushing a 0 slot keeps the sweep invariant: old colours keep their cells and sizes, and the new colour is closed under steps |
| `Labeller.UnusedColourWeighsNothing` | src/main.rs:99-101 | a colour no cell carries yet has point count 0, so the fresh slot pushed for it starts correct |
| `SizeList.Insert` | src/main.rs:107 | inserting into an ascending list gives an ascending list with one more copy of the value |
| `SizeList.SortAscending` | src/main.rs:107 | the sorted list is ascending and a permutation of the input |
| `SizeList.Reverse` | src/main.rs:108 | element k of the result is element n-1-k of the input |
| `SizeList.ReverseIsPermutation` | src/main.rs:108 | reversing keeps the same elements |
| `SizeList.SumOfPermutation` | src/main.rs:106-108 | two permutations of each other have the same sum, so sorting keeps the total size |
| `SizeList.ElementAtMostSum` | src/main.rs:59 | no single size exceeds the total of all sizes |
| `SizeList.Finalise` | src/main.rs:106-108 | after the trailing slot is dropped, the sizes are non-increasing, a permutation of the remaining slots, with the same sum |
| `Binning.EmptyCells` | src/main.rs:54-55 | the initial point matrix is N x N with every list empty |
| `Binning.Bin` | src/main.rs:64-69 | every cell holds exactly the input points whose cell index is that cell, in input order |
| `Binning.BinKeepsEveryPoint` | src/main.rs:65-69 | binning loses and duplicates no point: the grid holds as many points as the input |
| `Clustering.WeightsAddUp` | src/main.rs:145-146 | when every occupied cell carries one of colours 1..K, the point counts of those colours add up to all the points in the grid |
| `Clustering.FinalisedReport` | src/main.rs:106-108 | the finalised list of a completed sweep is non-increasing, a permutation of the colours' point counts, sums to the grid's points, fits in u16, the colours are the connected components of the occupied cells, and they are numbered in row-major order of their first cells |
| `Clustering.Cluster` | src/main.rs:54-108 | on success the grid has no uncoloured cell; 255 marks exactly the empty cells; occupied cells carry colours 1..K with K the number of sizes, each used; two occupied cells share a colour exactly when a path of steps joins them, so the clusters are the connected components; every cell of colour c >= 2 has a cell of colour c-1 before it in row-major order, so colours are numbered by first cell; the sizes are the colours' point counts, largest first, summing to the number of input points, each within u16; it fails only when 255 occupied cells exist no two of which are joined by a path, that is, at least 255 clusters |
| `SizeList.DescendingUnique` | src/main.rs:106-108 | two lists sorted largest first that hold the same sizes are equal, so the finalised list depends only on the sizes and not on the order of the slots |
| `Invariance.SelectCounts` | src/main.rs:64-69 | a cell receives each point exactly as many times as the input pairs that point with the cell's index |
| `Invariance.BinReordered` | src/main.rs:64-69 | binning any reordering of the (point, cell index) pairs fills every cell with the same points, each as many times; only their order in the list can change |
| `Invariance.ConnexeSameContents` | src/main.rs:228-248 | the adjacency test depends only on which points the two cells hold, not on their order in the lists |
| `Invariance.EdgeSameContents` | src/main.rs:181-213 | reordering the points within cells keeps every fill step |
| `Invariance.ConnectedSameContents` | src/main.rs:181-224 | reordering the points within cells keeps every path of fill steps |
| `Invariance.WeightSameContents` | src/main.rs:145-146 | reordering the points within cells keeps each colour's point count |
| `Invariance.ReportedSameContents` | src/main.rs:64-108 | every fact a report states about one grid holds for any grid whose cells hold the same points in other orders |
| `Invariance.NoLargerColour` | src/main.rs:83-101 | if two colour matrices both number the components in row-major order of their first cells and agree on every earlier cell, the first gives a cell no larger colour than the second |
| `Invariance.GridsAgree` | src/main.rs:71-104 | two colour matrices are equal if both mark exactly the empty cells with 255, colour the occupied cells by connected component, and number the colours in row-major order of their first cells |
| `Invariance.ReportUnique` | src/main.rs:54-108 | over one grid and radius at most one report meets the success contract of `Cluster`, so two successful runs on the same input give the same matrix and the same sizes |
| `Invariance.ReportedNotTooMany` | src/main.rs:83-104 | a grid with a report does not hold 255 clusters, because separate clusters carry different colours and at most 254 colours exist |
| `Invariance.ReportOrderInvariant` | src/main.rs:64-108 | two successful runs on reorderings of the same (point, cell index) pairs report the same matrix and the same sizes, so neither the multiset of cluster sizes nor the labels depend on the input order |
| `Invariance.OutcomeOrderInvariant` | src/main.rs:64-104 | if a run succeeds on one ordering, the points of any reordering do not form 255 clusters, which is the only way the run can fail |
| `Monotonicity.WithinGrows` | src/main.rs:242 | two points within a radius are within any larger radius |
| `Monotonicity.EdgeGrows` | src/main.rs:203-213 | a fill step at one radius is a fill step at any larger radius |
| `Monotonicity.ConnectedGrows` | src/main.rs:181-224 | cells joined by a path of steps at one radius are joined at any larger radius |
| `Monotonicity.NoSplit` | src/main.rs:83-104 | over the same cells, two occupied cells in one cluster at some radius are in one cluster at any larger radius |
| `Monotonicity.CoarserHasFewer` | src/main.rs:83-104 | a colouring that merges clusters of another but splits none uses no more colours |
| `Monotonicity.FewerClusters` | src/main.rs:83-104 | over the same cells, a larger radius reports no more clusters |
| `TextInput.TrimNewline` | src/main.rs:294-301 | the result is a prefix of the input, at most 2 characters shorter; unchanged unless the input ends in '\n', and strictly shorter when it does |
| `TextInput.TrimNewlineUndoesLineEnding` | src/main.rs:294-301 | a line with "\r\n" appended, or with "\n" appended when it does not already end in '\r', comes back as the line itself |
| `TextInput.TrimNewlineStripsOnce` | src/main.rs:294-301 | only one line ending is removed: "\n\n" loses one '\n', and "\r\r\n" keeps one '\r' |

## Left out

- Command-line handling and resolving the input file next to the executable (src/main.rs:7-35). This is process glue.
- Reading the file and parsing floats (`read_file`, src/main.rs:254-292). This is I/O plus a library parser. Only `trim_newline` is modelled.
- Printing the matrix and the size list (src/main.rs:110-129, 111). This is presentation only.
- The floating-point cell size `radius / sqrt(2)`, the side `ceil(1 / cell_size)` and the `floor` binning (src/main.rs:50-51, 66-67). `Cluster` takes the side N and each point's cell index as inputs, and requires the indices to be inside the grid. The program itself does not guard out-of-range points.
- The geometric claim that the 5x5-minus-corners neighbourhood reaches every pair of points within `radius`. It depends on `sqrt(2)` and rounding. The comment at src/main.rs:49 also misstates the cell size.
- `Sweep`: the `u8` colour counter (src/main.rs:62, 85-101). With 254 colours minted, the program would fill the next cluster with 255, the sentinel, so those cells would read as empty. The increment after it then overflows: a panic in a debug build, a wrap to 0 in a release build. Neither outcome is a meaningful labelling, so the model stops with `TooManyClusters` instead, and proves this happens only when the points form at least 255 clusters.
- `Cluster`: the same `u8` limit, for the same reason. It returns `TooManyClusters` where the program would mislabel or panic, and only when there are at least 255 clusters.
- `Cluster`: threshold correctness is stated for cells, not points. The point-level claim is that two points share a cluster exactly when a chain of input points joins them, each within `radius` of the next. One half needs any two points of one cell to lie within `radius` of each other. The other half needs any two points within `radius` to lie in cells at one of the 20 offsets. Both follow from the cell side `radius / sqrt(2)` and the `floor` binning (src/main.rs:50-51, 66-67), which the model takes as input. So the model proves only that the clusters are the connected components of the cell step relation.
- `Cluster`: monotonicity in `radius` is proved only with the binning held fixed (`Monotonicity.NoSplit`, `Monotonicity.FewerClusters`). In the program the side N and every point's cell change with `radius` (src/main.rs:50-51, 66-67), and that dependence is not modelled.
- `TwoCellsAreConnexe`: coordinates and `radius` are exact reals, not `f64` (src/main.rs:236, 242). The program rounds `radius.powi(2)` and each squared difference. A pair whose exact squared distance is within a rounding error of radius squared can be classified differently by the program than by the model. Floating-point rounding is not modelled.
- `Cluster`: the `i8` neighbour arithmetic (src/main.rs:182-191). This is a precondition: N <= 126, so `i + 2` and N fit in an `i8`.
- `Cluster`: the `u16` sizes (src/main.rs:59, 145-146). This is a precondition of at most 65535 points. Sizes are unbounded `nat`s in the model, and every reported size is proved to be at most 65535.
- `ColorFrom`: the recursion is a direct recursive method, as in the source. The model states no stack-depth bound beyond the decreasing count of uncoloured cells.
- The commented-out offset array (src/main.rs:158-179). It is dead code.
- The size placeholder: the program drops the trailing slot pushed after the last colour, not the initial one. The model follows the code.
- `src/generateRandomPoints.py`: random test-data generation, with no algorithmic content.

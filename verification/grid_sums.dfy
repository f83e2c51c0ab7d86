/** Sums of an integer-valued function over the cells of a rectangular grid.

    Every count the clustering model needs (cells still uncoloured, points
    carrying a colour, points in the whole grid, occupied cells) is one of
    these sums, so the facts about them are proved once here. */
module GridSums {

  /** f(j, 0) + f(j, 1) + ... + f(j, cols - 1). */
  ghost function RowSum(j: int, cols: nat, f: (int, int) -> int): int
    decreases cols
  {
    if cols == 0 then 0 else RowSum(j, cols - 1, f) + f(j, cols - 1)
  }

  /** The sum of f(j, i) over 0 <= j < rows and 0 <= i < cols.

      The recursion goes through `GridSumRows`, so a client that only
      mentions a sum does not see its terms; the lemmas below are the
      interface to it. */
  ghost function GridSum(rows: nat, cols: nat, f: (int, int) -> int): int
    decreases rows, 1
  {
    GridSumRows(rows, cols, f)
  }

  /** Rows 0 .. rows - 2 via `GridSum`, plus the last row. */
  ghost function GridSumRows(rows: nat, cols: nat, f: (int, int) -> int): int
    decreases rows, 0
  {
    if rows == 0 then 0 else GridSum(rows - 1, cols, f) + RowSum(rows - 1, cols, f)
  }

  lemma {:induction false} RowSumMono(j: int, cols: nat, f: (int, int) -> int, h: (int, int) -> int)
    requires forall i :: 0 <= i < cols ==> f(j, i) <= h(j, i)
    ensures RowSum(j, cols, f) <= RowSum(j, cols, h)
    decreases cols
  {
    if cols > 0 {
      RowSumMono(j, cols - 1, f, h);
    }
  }

  /** A pointwise smaller function has a smaller sum. */
  lemma {:induction false} GridSumMono(rows: nat, cols: nat, f: (int, int) -> int, h: (int, int) -> int)
    requires forall j, i :: 0 <= j < rows && 0 <= i < cols ==> f(j, i) <= h(j, i)
    ensures GridSum(rows, cols, f) <= GridSum(rows, cols, h)
    decreases rows
  {
    if rows > 0 {
      GridSumMono(rows - 1, cols, f, h);
      RowSumMono(rows - 1, cols, f, h);
    }
  }

  /** Functions that agree on the grid have the same sum. */
  lemma GridSumCongruent(rows: nat, cols: nat, f: (int, int) -> int, h: (int, int) -> int)
    requires forall j, i :: 0 <= j < rows && 0 <= i < cols ==> f(j, i) == h(j, i)
    ensures GridSum(rows, cols, f) == GridSum(rows, cols, h)
  {
    GridSumMono(rows, cols, f, h);
    GridSumMono(rows, cols, h, f);
  }

  lemma {:induction false} RowSumNonNegative(j: int, cols: nat, f: (int, int) -> int)
    requires forall i :: 0 <= i < cols ==> 0 <= f(j, i)
    ensures 0 <= RowSum(j, cols, f)
    decreases cols
  {
    if cols > 0 {
      RowSumNonNegative(j, cols - 1, f);
    }
  }

  lemma {:induction false} GridSumNonNegative(rows: nat, cols: nat, f: (int, int) -> int)
    requires forall j, i :: 0 <= j < rows && 0 <= i < cols ==> 0 <= f(j, i)
    ensures 0 <= GridSum(rows, cols, f)
    decreases rows
  {
    if rows > 0 {
      GridSumNonNegative(rows - 1, cols, f);
      RowSumNonNegative(rows - 1, cols, f);
    }
  }

  lemma {:induction false} RowSumAdd(j: int, cols: nat, f: (int, int) -> int, h: (int, int) -> int, fh: (int, int) -> int)
    requires forall i :: 0 <= i < cols ==> fh(j, i) == f(j, i) + h(j, i)
    ensures RowSum(j, cols, fh) == RowSum(j, cols, f) + RowSum(j, cols, h)
    decreases cols
  {
    if cols > 0 {
      RowSumAdd(j, cols - 1, f, h, fh);
    }
  }

  /** The sum of a pointwise sum is the sum of the sums. */
  lemma {:induction false} GridSumAdd(rows: nat, cols: nat, f: (int, int) -> int, h: (int, int) -> int, fh: (int, int) -> int)
    requires forall j, i :: 0 <= j < rows && 0 <= i < cols ==> fh(j, i) == f(j, i) + h(j, i)
    ensures GridSum(rows, cols, fh) == GridSum(rows, cols, f) + GridSum(rows, cols, h)
    decreases rows
  {
    if rows > 0 {
      GridSumAdd(rows - 1, cols, f, h, fh);
      RowSumAdd(rows - 1, cols, f, h, fh);
    }
  }

  lemma {:induction false} RowSumCongruent(j: int, cols: nat, f: (int, int) -> int, h: (int, int) -> int)
    requires forall i :: 0 <= i < cols ==> f(j, i) == h(j, i)
    ensures RowSum(j, cols, f) == RowSum(j, cols, h)
    decreases cols
  {
    if cols > 0 {
      RowSumCongruent(j, cols - 1, f, h);
    }
  }

  lemma {:induction false} RowSumPoint(j: int, cols: nat, f: (int, int) -> int, h: (int, int) -> int, i0: int)
    requires 0 <= i0 < cols
    requires forall i :: 0 <= i < cols && i != i0 ==> f(j, i) == h(j, i)
    ensures RowSum(j, cols, h) == RowSum(j, cols, f) - f(j, i0) + h(j, i0)
    decreases cols
  {
    if i0 == cols - 1 {
      RowSumCongruent(j, cols - 1, f, h);
    } else {
      RowSumPoint(j, cols - 1, f, h, i0);
    }
  }

  /** Changing a function at one cell changes its sum by exactly that change. */
  lemma {:induction false} GridSumPoint(rows: nat, cols: nat, f: (int, int) -> int, h: (int, int) -> int, j0: int, i0: int)
    requires 0 <= j0 < rows && 0 <= i0 < cols
    requires forall j, i :: 0 <= j < rows && 0 <= i < cols && (j != j0 || i != i0) ==> f(j, i) == h(j, i)
    ensures GridSum(rows, cols, h) == GridSum(rows, cols, f) - f(j0, i0) + h(j0, i0)
    decreases rows
  {
    if j0 == rows - 1 {
      GridSumCongruent(rows - 1, cols, f, h);
      RowSumPoint(j0, cols, f, h, i0);
    } else {
      GridSumPoint(rows - 1, cols, f, h, j0, i0);
      RowSumCongruent(rows - 1, cols, f, h);
    }
  }

  /** The constant 0 sums to 0. */
  lemma {:induction false} GridSumZero(rows: nat, cols: nat)
    ensures GridSum(rows, cols, (j: int, i: int) => 0) == 0
    decreases rows
  {
    if rows > 0 {
      GridSumZero(rows - 1, cols);
      RowSumZero(rows - 1, cols);
    }
  }

  lemma {:induction false} RowSumZero(j: int, cols: nat)
    ensures RowSum(j, cols, (j: int, i: int) => 0) == 0
    decreases cols
  {
    if cols > 0 {
      RowSumZero(j, cols - 1);
    }
  }
}

/** The neighbour offsets visited by the flood fill: the 5x5 block around a
    cell without its centre and without its four corners. */
module Offsets {

  type Offset = (int, int)

  function Abs(x: int): nat
  {
    if x < 0 then -x else x
  }

  /** (dx, dy) is one of the 20 offsets: both coordinates in [-2, 2] and
      |dx| + |dy| neither 0 (the cell itself) nor 4 (a corner). */
  predicate IsNeighbourOffset(dx: int, dy: int)
  {
    -2 <= dx <= 2 && -2 <= dy <= 2 && Abs(dx) + Abs(dy) != 0 && Abs(dx) + Abs(dy) != 4
  }

  /** Lexicographic order on offsets, dx first: the order the loops produce. */
  predicate LexLess(a: Offset, b: Offset)
  {
    a.0 < b.0 || (a.0 == b.0 && a.1 < b.1)
  }

  predicate StrictlyIncreasing(s: seq<Offset>)
  {
    forall p, q :: 0 <= p < q < |s| ==> LexLess(s[p], s[q])
  }

  /** The 20 offsets in the order the construction loops emit them. */
  const OffsetTable: seq<Offset> := [
    (-2, -1), (-2, 0), (-2, 1),
    (-1, -2), (-1, -1), (-1, 0), (-1, 1), (-1, 2),
    (0, -2), (0, -1), (0, 1), (0, 2),
    (1, -2), (1, -1), (1, 0), (1, 1), (1, 2),
    (2, -1), (2, 0), (2, 1)
  ]

  /** The construction loops: dx over -2..2, dy over -2..2 inside it, keeping
      the offsets whose taxicab length is neither 0 nor 4. */
  method NeighbourOffsets() returns (offsets: seq<Offset>)
    ensures StrictlyIncreasing(offsets)
    ensures forall d :: d in offsets <==> IsNeighbourOffset(d.0, d.1)
  {
    offsets := [];
    var x := -2;
    while x <= 2
      invariant -2 <= x <= 3
      invariant StrictlyIncreasing(offsets)
      invariant forall k :: 0 <= k < |offsets| ==> offsets[k].0 < x
      invariant forall d :: d in offsets <==> IsNeighbourOffset(d.0, d.1) && d.0 < x
    {
      var y := -2;
      while y <= 2
        invariant -2 <= y <= 3
        invariant StrictlyIncreasing(offsets)
        invariant forall k :: 0 <= k < |offsets| ==> LexLess(offsets[k], (x, y))
        invariant forall d :: d in offsets <==> IsNeighbourOffset(d.0, d.1) && LexLess(d, (x, y))
      {
        var distance := Abs(x) + Abs(y);
        if distance != 4 && distance != 0 {
          ghost var before := offsets;
          offsets := offsets + [(x, y)];
          assert forall d :: d in offsets <==> d in before || d == (x, y);
        }
        y := y + 1;
      }
      assert forall d: Offset :: IsNeighbourOffset(d.0, d.1) ==> (LexLess(d, (x, 3)) <==> d.0 < x + 1);
      x := x + 1;
    }
  }

  /** The only strictly increasing sequence holding exactly the neighbour
      offsets is the table: the construction loops produce these 20 offsets
      in this order. */
  lemma LoopResultIsTable(s: seq<Offset>)
    requires StrictlyIncreasing(s)
    requires forall d :: d in s <==> IsNeighbourOffset(d.0, d.1)
    ensures s == OffsetTable
  {
    OffsetTableExact();
    SameElementsSameSequence(s, OffsetTable);
  }

  /** Each entry of the table is strictly below the next one. */
  predicate StepsIncrease(s: seq<Offset>)
  {
    forall p :: 0 <= p < |s| - 1 ==> LexLess(s[p], s[p + 1])
  }

  lemma {:induction false} StepsIncreaseChain(s: seq<Offset>)
    requires StepsIncrease(s)
    ensures StrictlyIncreasing(s)
    decreases |s|
  {
    if |s| > 1 {
      StepsIncreaseChain(s[1..]);
      forall q | 1 < q < |s|
        ensures LexLess(s[0], s[q])
      {
        assert s[1..][0] == s[1] && s[1..][q - 1] == s[q];
      }
      forall p, q | 0 <= p < q < |s|
        ensures LexLess(s[p], s[q])
      {
        if p > 0 {
          assert s[1..][p - 1] == s[p] && s[1..][q - 1] == s[q];
        }
      }
    }
  }

  /** Every table entry is a neighbour offset. */
  lemma TableEntriesAreOffsets()
    ensures forall k :: 0 <= k < |OffsetTable| ==> IsNeighbourOffset(OffsetTable[k].0, OffsetTable[k].1)
  {
  }

  /** Every neighbour offset occurs in the table. */
  lemma OffsetsAreInTable(dx: int, dy: int)
    requires IsNeighbourOffset(dx, dy)
    ensures (dx, dy) in OffsetTable
  {
    var t := OffsetTable;
    if dx == -2 {
      if dy == -1 { assert t[0] == (dx, dy); }
      else if dy == 0 { assert t[1] == (dx, dy); }
      else { assert t[2] == (dx, dy); }
    } else if dx == -1 {
      if dy == -2 { assert t[3] == (dx, dy); }
      else if dy == -1 { assert t[4] == (dx, dy); }
      else if dy == 0 { assert t[5] == (dx, dy); }
      else if dy == 1 { assert t[6] == (dx, dy); }
      else { assert t[7] == (dx, dy); }
    } else if dx == 0 {
      if dy == -2 { assert t[8] == (dx, dy); }
      else if dy == -1 { assert t[9] == (dx, dy); }
      else if dy == 1 { assert t[10] == (dx, dy); }
      else { assert t[11] == (dx, dy); }
    } else if dx == 1 {
      if dy == -2 { assert t[12] == (dx, dy); }
      else if dy == -1 { assert t[13] == (dx, dy); }
      else if dy == 0 { assert t[14] == (dx, dy); }
      else if dy == 1 { assert t[15] == (dx, dy); }
      else { assert t[16] == (dx, dy); }
    } else {
      if dy == -1 { assert t[17] == (dx, dy); }
      else if dy == 0 { assert t[18] == (dx, dy); }
      else { assert t[19] == (dx, dy); }
    }
  }

  /** The table is in strictly increasing dx-major order. */
  lemma TableIncreases()
    ensures StrictlyIncreasing(OffsetTable)
  {
    var t := OffsetTable;
    // each neighbouring pair, spelled out so that no case split over indices is needed
    assert LexLess(t[0], t[1]) && LexLess(t[1], t[2]) && LexLess(t[2], t[3]) && LexLess(t[3], t[4]);
    assert LexLess(t[4], t[5]) && LexLess(t[5], t[6]) && LexLess(t[6], t[7]) && LexLess(t[7], t[8]);
    assert LexLess(t[8], t[9]) && LexLess(t[9], t[10]) && LexLess(t[10], t[11]) && LexLess(t[11], t[12]);
    assert LexLess(t[12], t[13]) && LexLess(t[13], t[14]) && LexLess(t[14], t[15]) && LexLess(t[15], t[16]);
    assert LexLess(t[16], t[17]) && LexLess(t[17], t[18]) && LexLess(t[18], t[19]);
    assert StepsIncrease(t);
    StepsIncreaseChain(t);
  }

  /** The table holds exactly the neighbour offsets, in increasing order. */
  lemma OffsetTableExact()
    ensures StrictlyIncreasing(OffsetTable)
    ensures forall d :: d in OffsetTable <==> IsNeighbourOffset(d.0, d.1)
  {
    TableIncreases();
    TableEntriesAreOffsets();
    forall d: Offset | IsNeighbourOffset(d.0, d.1)
      ensures d in OffsetTable
    {
      OffsetsAreInTable(d.0, d.1);
    }
  }

  /** The head of a strictly increasing sequence is below every other element. */
  lemma HeadIsLeast(s: seq<Offset>, d: Offset)
    requires StrictlyIncreasing(s) && |s| > 0
    requires d in s
    ensures d == s[0] || LexLess(s[0], d)
  {
    var p :| 0 <= p < |s| && s[p] == d;
    if p > 0 {
      assert LexLess(s[0], s[p]);
    }
  }

  /** Two strictly increasing sequences with the same elements are equal. */
  lemma {:induction false} SameElementsSameSequence(a: seq<Offset>, b: seq<Offset>)
    requires StrictlyIncreasing(a) && StrictlyIncreasing(b)
    requires forall d :: d in a <==> d in b
    ensures a == b
    decreases |a|
  {
    assert |a| > 0 ==> a[0] in b;
    assert |b| > 0 ==> b[0] in a;
    if |a| > 0 {
      HeadIsLeast(b, a[0]);
      HeadIsLeast(a, b[0]);
      assert a[0] == b[0];
      forall d | d in a[1..]
        ensures d in b[1..]
      {
        var p :| 0 <= p < |a[1..]| && a[1..][p] == d;
        assert a[p + 1] == d && LexLess(a[0], a[p + 1]);
        assert d in b;
        var q :| 0 <= q < |b| && b[q] == d;
        assert q != 0;
        assert b[1..][q - 1] == d;
      }
      forall d | d in b[1..]
        ensures d in a[1..]
      {
        var q :| 0 <= q < |b[1..]| && b[1..][q] == d;
        assert b[q + 1] == d && LexLess(b[0], b[q + 1]);
        assert d in a;
        var p :| 0 <= p < |a| && a[p] == d;
        assert p != 0;
        assert a[1..][p - 1] == d;
      }
      SameElementsSameSequence(a[1..], b[1..]);
      assert a == [a[0]] + a[1..];
      assert b == [b[0]] + b[1..];
    }
  }

  /** There are 20 offsets, all distinct. */
  lemma OffsetsShape()
    ensures |OffsetTable| == 20
    ensures forall p, q :: 0 <= p < q < |OffsetTable| ==> OffsetTable[p] != OffsetTable[q]
  {
    OffsetTableExact();
  }

  /** The offset set is closed under negation, so the neighbour relation it
      defines between cells is symmetric. */
  lemma OffsetsNegate(dx: int, dy: int)
    ensures IsNeighbourOffset(dx, dy) <==> IsNeighbourOffset(-dx, -dy)
  {
  }
}

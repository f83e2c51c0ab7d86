/** Points of the plane and the cell adjacency test (`two_cells_are_connexe`).

    Coordinates are exact reals: the test compares a squared distance with
    the squared radius, and a pair at distance exactly `radius` counts. */
module Geometry {

  type Point = (real, real)

  /** (x2 - x1)^2 + (y2 - y1)^2, the squared Euclidean distance from p to q. */
  function SqDist(p: Point, q: Point): real
  {
    (q.0 - p.0) * (q.0 - p.0) + (q.1 - p.1) * (q.1 - p.1)
  }

  /** p and q are close enough to belong to the same cluster. */
  predicate Within(p: Point, q: Point, radius: real)
  {
    SqDist(p, q) <= radius * radius
  }

  /** Some point of `cell1` is within `radius` of some point of `cell2`. */
  ghost predicate Connexe(cell1: seq<Point>, cell2: seq<Point>, radius: real)
  {
    exists a, b :: 0 <= a < |cell1| && 0 <= b < |cell2| && Within(cell1[a], cell2[b], radius)
  }

  /** The brute-force pairwise test, returning at the first close pair. */
  method TwoCellsAreConnexe(cell1: seq<Point>, cell2: seq<Point>, radius: real) returns (linked: bool)
    ensures linked <==> Connexe(cell1, cell2, radius)
  {
    var a := 0;
    while a < |cell1|
      invariant 0 <= a <= |cell1|
      invariant forall a', b' :: 0 <= a' < a && 0 <= b' < |cell2| ==> !Within(cell1[a'], cell2[b'], radius)
    {
      var b := 0;
      while b < |cell2|
        invariant 0 <= b <= |cell2|
        invariant forall a', b' :: 0 <= a' < a && 0 <= b' < |cell2| ==> !Within(cell1[a'], cell2[b'], radius)
        invariant forall b' :: 0 <= b' < b ==> !Within(cell1[a], cell2[b'], radius)
      {
        if Within(cell1[a], cell2[b], radius) {
          return true;
        }
        b := b + 1;
      }
      a := a + 1;
    }
    return false;
  }

  lemma SqDistSymmetric(p: Point, q: Point)
    ensures SqDist(p, q) == SqDist(q, p)
  {
    assert (q.0 - p.0) * (q.0 - p.0) == (p.0 - q.0) * (p.0 - q.0);
    assert (q.1 - p.1) * (q.1 - p.1) == (p.1 - q.1) * (p.1 - q.1);
  }

  /** Adjacency does not depend on the order of the two cells. */
  lemma ConnexeSymmetric(cell1: seq<Point>, cell2: seq<Point>, radius: real)
    ensures Connexe(cell1, cell2, radius) <==> Connexe(cell2, cell1, radius)
  {
    if Connexe(cell1, cell2, radius) {
      var a, b :| 0 <= a < |cell1| && 0 <= b < |cell2| && Within(cell1[a], cell2[b], radius);
      SqDistSymmetric(cell1[a], cell2[b]);
      assert Within(cell2[b], cell1[a], radius);
    }
    if Connexe(cell2, cell1, radius) {
      var b, a :| 0 <= b < |cell2| && 0 <= a < |cell1| && Within(cell2[b], cell1[a], radius);
      SqDistSymmetric(cell2[b], cell1[a]);
      assert Within(cell1[a], cell2[b], radius);
    }
  }

  /** An empty cell is adjacent to nothing. */
  lemma ConnexeNeedsPoints(cell1: seq<Point>, cell2: seq<Point>, radius: real)
    ensures Connexe(cell1, cell2, radius) ==> |cell1| > 0 && |cell2| > 0
  {
  }

  /** Two points at distance exactly `radius` make their cells adjacent. */
  lemma BoundaryDistanceIsConnexe(p: Point, q: Point, radius: real)
    requires SqDist(p, q) == radius * radius
    ensures Connexe([p], [q], radius)
  {
    assert Within([p][0], [q][0], radius);
  }
}

/** The end of `main`: pop the trailing size slot, sort the sizes, reverse
    them, so that the cluster sizes come out largest first. */
module SizeList {

  /** s[0] + ... + s[|s| - 1]. */
  function Sum(s: seq<nat>): nat
  {
    if |s| == 0 then 0 else Sum(s[..|s| - 1]) + s[|s| - 1]
  }

  predicate Ascending(s: seq<nat>)
  {
    forall p, q :: 0 <= p < q < |s| ==> s[p] <= s[q]
  }

  predicate Descending(s: seq<nat>)
  {
    forall p, q :: 0 <= p < q < |s| ==> s[p] >= s[q]
  }

  /** Insert x into an ascending sequence, before the first element not smaller. */
  function Insert(x: nat, s: seq<nat>): (r: seq<nat>)
    requires Ascending(s)
    ensures Ascending(r)
    ensures multiset(r) == multiset(s) + multiset{x}
  {
    if |s| == 0 then [x]
    else if x <= s[0] then [x] + s
    else
      var rest := Insert(x, s[1..]);
      InsertBehindHead(x, s, rest);
      [s[0]] + rest
  }

  /** Putting the head back in front of the insertion into the tail keeps the
      order and the elements. */
  lemma InsertBehindHead(x: nat, s: seq<nat>, rest: seq<nat>)
    requires Ascending(s) && |s| > 0 && s[0] < x
    requires Ascending(rest) && multiset(rest) == multiset(s[1..]) + multiset{x}
    ensures Ascending([s[0]] + rest)
    ensures multiset([s[0]] + rest) == multiset(s) + multiset{x}
  {
    assert s == [s[0]] + s[1..];
    assert multiset(rest) == multiset(s[1..] + [x]);
    BoundedBelow(s[0], rest, s[1..] + [x]);
    var r := [s[0]] + rest;
    forall p, q | 0 <= p < q < |r|
      ensures r[p] <= r[q]
    {
      assert r[q] == rest[q - 1];
      if p > 0 {
        assert r[p] == rest[p - 1];
      }
    }
  }

  /** A lower bound of the elements of t bounds every permutation of t. */
  lemma BoundedBelow(low: nat, r: seq<nat>, t: seq<nat>)
    requires multiset(r) == multiset(t)
    requires forall k :: 0 <= k < |t| ==> low <= t[k]
    ensures forall k :: 0 <= k < |r| ==> low <= r[k]
  {
    forall k | 0 <= k < |r|
      ensures low <= r[k]
    {
      assert r[k] in multiset(r);
      assert r[k] in t;
    }
  }

  /** `sort`: the same sizes in ascending order. */
  function SortAscending(s: seq<nat>): (r: seq<nat>)
    ensures Ascending(r)
    ensures multiset(r) == multiset(s)
  {
    if |s| == 0 then []
    else
      assert s == [s[0]] + s[1..];
      Insert(s[0], SortAscending(s[1..]))
  }

  /** `reverse`: the same elements back to front. */
  function Reverse(s: seq<nat>): (r: seq<nat>)
    ensures |r| == |s|
    ensures forall k :: 0 <= k < |s| ==> r[k] == s[|s| - 1 - k]
  {
    if |s| == 0 then [] else [s[|s| - 1]] + Reverse(s[..|s| - 1])
  }

  lemma {:induction false} ReverseIsPermutation(s: seq<nat>)
    ensures multiset(Reverse(s)) == multiset(s)
    decreases |s|
  {
    if |s| > 0 {
      ReverseIsPermutation(s[..|s| - 1]);
      assert s == s[..|s| - 1] + [s[|s| - 1]];
    }
  }

  /** Drop the trailing slot that no colour filled, then sort the sizes
      and reverse them: the result is the remaining sizes, largest first. */
  method Finalise(sizes: seq<nat>) returns (r: seq<nat>)
    requires |sizes| >= 1
    ensures Descending(r)
    ensures multiset(r) == multiset(sizes[..|sizes| - 1])
    ensures Sum(r) == Sum(sizes[..|sizes| - 1])
  {
    var popped := sizes[..|sizes| - 1];
    var sorted := SortAscending(popped);
    r := Reverse(sorted);
    ReverseIsPermutation(sorted);
    SumOfPermutation(r, popped);
  }

  lemma {:induction false} SumConcat(u: seq<nat>, v: seq<nat>)
    ensures Sum(u + v) == Sum(u) + Sum(v)
    decreases |v|
  {
    if |v| == 0 {
      assert u + v == u;
    } else {
      SumConcat(u, v[..|v| - 1]);
      assert (u + v)[..|u + v| - 1] == u + v[..|v| - 1];
    }
  }

  /** Taking one element out of a sequence takes its value out of the sum. */
  lemma SumRemove(s: seq<nat>, k: int)
    requires 0 <= k < |s|
    ensures Sum(s) == Sum(s[..k] + s[k + 1..]) + s[k]
  {
    var front, middle, back := s[..k], s[..k + 1], s[k + 1..];
    assert s == middle + back;
    SumConcat(middle, back);
    assert middle[..k] == front;
    SumConcat(front, back);
  }

  /** Sequences holding the same elements have the same sum. */
  lemma {:induction false} SumOfPermutation(a: seq<nat>, b: seq<nat>)
    requires multiset(a) == multiset(b)
    ensures Sum(a) == Sum(b)
    decreases |a|
  {
    if |a| > 0 {
      var x := a[|a| - 1];
      assert a == a[..|a| - 1] + [x];
      assert x in multiset(b);
      var k :| 0 <= k < |b| && b[k] == x;
      var b' := b[..k] + b[k + 1..];
      assert b == b[..k] + [b[k]] + b[k + 1..];
      assert multiset(b') == multiset(b) - multiset{x};
      SumOfPermutation(a[..|a| - 1], b');
      SumRemove(b, k);
    } else {
      assert |multiset(b)| == 0;
    }
  }

  /** No element exceeds the sum. */
  lemma {:induction false} ElementAtMostSum(s: seq<nat>, k: int)
    requires 0 <= k < |s|
    ensures s[k] <= Sum(s)
    decreases |s|
  {
    if k < |s| - 1 {
      ElementAtMostSum(s[..|s| - 1], k);
    }
  }

  /** The head of a list sorted largest first is at least any of its elements. */
  lemma HeadIsLargest(a: seq<nat>, x: nat)
    requires Descending(a) && x in multiset(a)
    ensures |a| > 0 && x <= a[0]
  {
    var p :| 0 <= p < |a| && a[p] == x;
  }

  /** Two sorted lists with the same elements have the same head, and
      their tails are again sorted lists with the same elements. */
  lemma DropHeads(a: seq<nat>, b: seq<nat>)
    requires Descending(a) && Descending(b)
    requires multiset(a) == multiset(b) && |a| > 0
    ensures |b| > 0 && a[0] == b[0]
    ensures Descending(a[1..]) && Descending(b[1..])
    ensures multiset(a[1..]) == multiset(b[1..])
  {
    HeadIsLargest(b, a[0]);
    HeadIsLargest(a, b[0]);
    assert multiset(a) == multiset{a[0]} + multiset(a[1..]) by {
      assert a == [a[0]] + a[1..];
    }
    assert multiset(b) == multiset{b[0]} + multiset(b[1..]) by {
      assert b == [b[0]] + b[1..];
    }
    assert a[0] == b[0];
    assert multiset(a[1..]) == multiset(a) - multiset{a[0]};
  }

  /** A size list sorted largest first is fixed by the sizes it holds. */
  lemma {:induction false} DescendingUnique(a: seq<nat>, b: seq<nat>)
    requires Descending(a) && Descending(b)
    requires multiset(a) == multiset(b)
    ensures a == b
    decreases |a|
  {
    if |a| > 0 {
      DropHeads(a, b);
      DescendingUnique(a[1..], b[1..]);
      assert a == [a[0]] + a[1..] && b == [b[0]] + b[1..];
    } else {
      assert |multiset(b)| == 0;
    }
  }
}

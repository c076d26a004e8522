/**
 * The sort `write_sorted_chunk` applies to a full buffer
 * (`par_sort_unstable_by(|a, b| a.cmp(b))`), stated as a sequential sort:
 * the result is sorted and a permutation. Sorted permutations are unique,
 * so any correct sort, stable or not, gives the same sequence.
 */
module Sorting {
  import opened Lines

  /** Inserts `x` into the sorted `s` before the first line it does not exceed. */
  function Insert(x: Line, s: seq<Line>): (r: seq<Line>)
    requires Sorted(s)
    ensures Sorted(r)
    ensures multiset(r) == multiset(s) + multiset{x}
  {
    if s == [] then [x]
    else if Le(x, s[0]) then
      SortedCons(x, s);
      [x] + s
    else
      var t := Insert(x, s[1..]);
      assert s == [s[0]] + s[1..];
      HeadBelowInsert(x, s, t);
      SortedCons(s[0], t);
      [s[0]] + t
  }

  /** A line no greater than the head of a sorted sequence can go in front of it. */
  lemma SortedCons(y: Line, t: seq<Line>)
    requires Sorted(t)
    requires t != [] ==> Le(y, t[0])
    ensures Sorted([y] + t)
  {
    forall j | 0 <= j < |t|
      ensures Le(y, t[j])
    {
      CmpTransitive(y, t[0], t[j]);
    }
  }

  lemma HeadBelowInsert(x: Line, s: seq<Line>, t: seq<Line>)
    requires Sorted(s) && s != [] && !Le(x, s[0])
    requires multiset(t) == multiset(s[1..]) + multiset{x}
    ensures t != [] ==> Le(s[0], t[0])
  {
    if t != [] {
      assert t[0] in multiset(t);
      LeTotal(x, s[0]);
      if t[0] != x {
        assert t[0] in s[1..];
      }
    }
  }

  /** The buffer after `par_sort_unstable_by(|a, b| a.cmp(b))`. */
  function SortLines(s: seq<Line>): (r: seq<Line>)
    ensures Sorted(r)
    ensures multiset(r) == multiset(s)
  {
    if s == [] then []
    else
      assert s == [s[0]] + s[1..];
      Insert(s[0], SortLines(s[1..]))
  }

  /** The first element of a sorted sequence is below every element of it. */
  lemma SortedHeadIsLeast(s: seq<Line>, x: Line)
    requires Sorted(s) && x in s
    ensures Le(s[0], x)
  {
    var j :| 0 <= j < |s| && s[j] == x;
    if j == 0 {
      CmpReverse(x, x);
    }
  }

  /** Two sorted permutations of the same lines are equal. */
  lemma {:induction false} SortedUnique(a: seq<Line>, b: seq<Line>)
    requires Sorted(a) && Sorted(b)
    requires multiset(a) == multiset(b)
    ensures a == b
  {
    if a != [] {
      SameHead(a, b);
      TailBag(a);
      TailBag(b);
      SortedUnique(a[1..], b[1..]);
      assert a == [a[0]] + a[1..];
      assert b == [b[0]] + b[1..];
    } else {
      assert |b| == |multiset(b)| == 0;
    }
  }

  /** Sorted permutations of the same lines start with the same line. */
  lemma SameHead(a: seq<Line>, b: seq<Line>)
    requires Sorted(a) && Sorted(b) && a != []
    requires multiset(a) == multiset(b)
    ensures b != [] && a[0] == b[0]
  {
    assert a[0] in multiset(b);
    assert b[0] in multiset(a);
    SortedHeadIsLeast(a, b[0]);
    SortedHeadIsLeast(b, a[0]);
    LeAntisymmetric(a[0], b[0]);
  }

  /** Dropping the head takes one copy of it out of the bag. */
  lemma TailBag(s: seq<Line>)
    requires s != []
    ensures multiset(s[1..]) == multiset(s) - multiset{s[0]}
  {
    assert s == [s[0]] + s[1..];
  }

  /** Sorting a sorted sequence leaves it as it is. */
  lemma SortLinesOfSorted(s: seq<Line>)
    requires Sorted(s)
    ensures SortLines(s) == s
  {
    SortedUnique(SortLines(s), s);
  }

  /** A strictly sorted sequence holds no line twice, so its length is its count of distinct lines. */
  lemma {:induction false} StrictlySortedDistinct(s: seq<Line>)
    requires StrictlySorted(s)
    ensures |s| == |set x | x in s|
  {
    if s != [] {
      StrictlySortedDistinct(s[1..]);
      StrictTailOmitsHead(s, s[0]);
      assert (set x | x in s) == {s[0]} + (set x | x in s[1..]);
    }
  }

  /** Two strictly sorted sequences holding the same lines are equal. */
  lemma {:induction false} StrictlySortedUnique(a: seq<Line>, b: seq<Line>)
    requires StrictlySorted(a) && StrictlySorted(b)
    requires forall x :: x in a <==> x in b
    ensures a == b
  {
    StrictlySortedDistinct(a);
    StrictlySortedDistinct(b);
    assert (set x | x in a) == (set x | x in b);
    if a != [] {
      StrictIsSorted(a);
      StrictIsSorted(b);
      assert a[0] in b && b[0] in a;
      SortedHeadIsLeast(a, b[0]);
      SortedHeadIsLeast(b, a[0]);
      LeAntisymmetric(a[0], b[0]);
      forall x
        ensures x in a[1..] <==> x in b[1..]
      {
        StrictTailOmitsHead(a, x);
        StrictTailOmitsHead(b, x);
      }
      assert a == [a[0]] + a[1..] && b == [b[0]] + b[1..];
      StrictlySortedUnique(a[1..], b[1..]);
    }
  }

  lemma StrictIsSorted(s: seq<Line>)
    requires StrictlySorted(s)
    ensures Sorted(s)
  {
  }

  lemma StrictTailOmitsHead(s: seq<Line>, x: Line)
    requires StrictlySorted(s) && s != []
    ensures x in s[1..] <==> x in s && x != s[0]
  {
    if x in s[1..] {
      var j :| 0 <= j < |s[1..]| && s[1..][j] == x;
      assert Lt(s[0], s[j + 1]);
    }
    if x in s && x != s[0] {
      var j :| 0 <= j < |s| && s[j] == x;
      assert s[1..][j - 1] == x;
    }
  }
}

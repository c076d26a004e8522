/**
 * The merge frontier's priority queue: `HeapItem` with its reversed `Ord`,
 * and `std::collections::BinaryHeap` stated by its contract (a max-heap:
 * `pop` returns a greatest item).
 */
module Heap {
  import opened Wrappers
  import opened Lines

  /** One frontier entry: a line and the index of the chunk reader it came from. */
  datatype HeapItem = HeapItem(line: Line, index: nat)

  /**
   * `impl Ord for HeapItem`: `other.line.cmp(&self.line)`, the line order
   * reversed, so that the max-heap yields the smallest line first. The index
   * takes no part. (`partial_cmp` is `Some` of this, always.)
   */
  function HeapCmp(self: HeapItem, other: HeapItem): (r: Ordering)
    ensures r == Cmp(self.line, other.line).Reverse()
    ensures r != Less <==> Le(self.line, other.line)
  {
    CmpReverse(self.line, other.line);
    Cmp(other.line, self.line)
  }

  /**
   * `impl PartialEq for HeapItem`: the lines are compared and the indices
   * are not, which agrees with `HeapCmp` as `Ord` requires.
   */
  function HeapEq(self: HeapItem, other: HeapItem): (r: bool)
    ensures r <==> HeapCmp(self, other) == Equal
  {
    self.line == other.line
  }

  /** A greatest item of `items` under `HeapCmp`. */
  ghost predicate IsMax(x: HeapItem, items: seq<HeapItem>) {
    x in items && forall y :: y in items ==> HeapCmp(x, y) != Less
  }

  /** The item the heap yields carries a line no larger than any other line in the heap. */
  lemma MaxHasLeastLine(x: HeapItem, items: seq<HeapItem>)
    requires IsMax(x, items)
    ensures forall y :: y in items ==> Le(x.line, y.line)
  {
  }

  lemma MaxAt(items: seq<HeapItem>, best: nat)
    requires best < |items|
    requires forall j :: 0 <= j < |items| ==> Le(items[best].line, items[j].line)
    ensures IsMax(items[best], items)
  {
    forall y | y in items
      ensures HeapCmp(items[best], y) != Less
    {
      var j :| 0 <= j < |items| && items[j] == y;
    }
  }

  lemma RemoveAt<T>(s: seq<T>, i: nat)
    requires i < |s|
    ensures multiset(s[..i] + s[i + 1..]) == multiset(s) - multiset{s[i]}
  {
    assert s == s[..i] + [s[i]] + s[i + 1..];
  }

  /**
   * `BinaryHeap<HeapItem>`. `items` holds its contents; their order inside
   * the heap is not part of the contract.
   */
  class MaxHeap {
    var items: seq<HeapItem>

    /** `BinaryHeap::new()`. */
    constructor ()
      ensures items == []
    {
      items := [];
    }

    /** `heap.push(x)`. */
    method Push(x: HeapItem)
      modifies this
      ensures multiset(items) == multiset(old(items)) + multiset{x}
    {
      items := items + [x];
    }

    /**
     * `heap.pop()`: `None` exactly when the heap is empty, otherwise one
     * greatest item, removed from the heap.
     */
    method Pop() returns (top: Option<HeapItem>)
      modifies this
      ensures top.None? <==> old(items) == []
      ensures top.None? ==> items == []
      ensures top.Some? ==> IsMax(top.value, old(items))
      ensures top.Some? ==> multiset(items) == multiset(old(items)) - multiset{top.value}
    {
      var s := items;
      if s == [] {
        return None;
      }
      var best := 0;
      var k := 1;
      while k < |s|
        invariant 0 <= best < k <= |s|
        invariant forall j :: 0 <= j < k ==> Le(s[best].line, s[j].line)
      {
        if HeapCmp(s[k], s[best]) == Greater {
          forall j | 0 <= j < k
            ensures Le(s[k].line, s[j].line)
          {
            CmpTransitive(s[k].line, s[best].line, s[j].line);
          }
          best := k;
        } else {
          LeTotal(s[best].line, s[k].line);
        }
        k := k + 1;
      }
      var x := s[best];
      MaxAt(s, best);
      RemoveAt(s, best);
      top := Some(x);
      items := s[..best] + s[best + 1..];
    }
  }
}

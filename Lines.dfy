/**
 * Lines as raw bytes (`type Line = Vec<u8>` in src/main.rs) and the order
 * `Vec<u8>::cmp` puts on them: byte-lexicographic, a proper prefix first.
 */
module Lines {

  /** One byte of input, Rust's `u8`. */
  newtype Byte = b: int | 0 <= b < 256

  /** The delimiter `read_until` stops at, `b'\n'`. */
  const Newline: Byte := 10

  /** A line as read, its delimiter included when there is one. */
  type Line = seq<Byte>

  /** `std::cmp::Ordering`. */
  datatype Ordering = Less | Equal | Greater {
    /** `Ordering::reverse`. */
    function Reverse(): Ordering {
      match this
      case Less => Greater
      case Equal => Equal
      case Greater => Less
    }
  }

  /**
   * `Vec<u8>::cmp`: the first differing byte decides, and when one line is
   * a proper prefix of the other the shorter one is smaller.
   */
  function Cmp(a: Line, b: Line): (r: Ordering)
    ensures r == Equal <==> a == b
    ensures |a| < |b| && a == b[..|a|] ==> r == Less
  {
    if a == [] then (if b == [] then Equal else Less)
    else if b == [] then Greater
    else if a[0] < b[0] then Less
    else if a[0] > b[0] then Greater
    else
      assert a == [a[0]] + a[1..] && b == [b[0]] + b[1..];
      Cmp(a[1..], b[1..])
  }

  predicate Le(a: Line, b: Line) { Cmp(a, b) != Greater }

  predicate Lt(a: Line, b: Line) { Cmp(a, b) == Less }

  /** Swapping the operands reverses the ordering. */
  lemma {:induction false} CmpReverse(a: Line, b: Line)
    ensures Cmp(b, a) == Cmp(a, b).Reverse()
  {
    if a != [] && b != [] && a[0] == b[0] {
      CmpReverse(a[1..], b[1..]);
    }
  }

  /** The order is total: any two lines are comparable. */
  lemma LeTotal(a: Line, b: Line)
    ensures Le(a, b) || Le(b, a)
    ensures !Le(a, b) ==> Lt(b, a)
  {
    CmpReverse(a, b);
  }

  /** The order is antisymmetric: lines equal under it are the same bytes. */
  lemma LeAntisymmetric(a: Line, b: Line)
    ensures Le(a, b) && Le(b, a) ==> a == b
  {
    CmpReverse(a, b);
  }

  /** The order is transitive, and strictly so when either step is strict. */
  lemma {:induction false} CmpTransitive(a: Line, b: Line, c: Line)
    ensures Le(a, b) && Le(b, c) ==> Le(a, c)
    ensures Lt(a, b) && Le(b, c) ==> Lt(a, c)
    ensures Le(a, b) && Lt(b, c) ==> Lt(a, c)
  {
    if a != [] && b != [] && c != [] && a[0] == b[0] == c[0] {
      CmpTransitive(a[1..], b[1..], c[1..]);
    }
  }

  /** Non-decreasing in byte-lexicographic order. */
  ghost predicate Sorted(s: seq<Line>) {
    forall i, j :: 0 <= i < j < |s| ==> Le(s[i], s[j])
  }

  /** Strictly increasing: sorted and free of duplicates. */
  ghost predicate StrictlySorted(s: seq<Line>) {
    forall i, j :: 0 <= i < j < |s| ==> Lt(s[i], s[j])
  }

  /** Appending an element no smaller than the last keeps a sequence sorted. */
  lemma SortedAppend(s: seq<Line>, x: Line)
    requires Sorted(s)
    requires s != [] ==> Le(s[|s| - 1], x)
    ensures Sorted(s + [x])
  {
    forall i | 0 <= i < |s|
      ensures Le(s[i], x)
    {
      CmpTransitive(s[i], s[|s| - 1], x);
    }
  }

  /**
   * Concatenation of a sequence of sequences: lines into the bytes `write_all`
   * produces for them, one after the other, or chunks into lines.
   */
  function Concat<T>(ss: seq<seq<T>>): (r: seq<T>)
  {
    if ss == [] then [] else ss[0] + Concat(ss[1..])
  }

  lemma {:induction false} ConcatAppend<T>(ss: seq<seq<T>>, s: seq<T>)
    ensures Concat(ss + [s]) == Concat(ss) + s
  {
    if ss != [] {
      assert (ss + [s])[1..] == ss[1..] + [s];
      ConcatAppend(ss[1..], s);
    }
  }

  /** Replacing one element of `ss` changes the bag of its concatenation by exactly that element. */
  lemma {:induction false} ConcatUpdate<T>(ss: seq<seq<T>>, i: nat, t: seq<T>)
    requires i < |ss|
    ensures multiset(Concat(ss[i := t])) + multiset(ss[i]) == multiset(Concat(ss)) + multiset(t)
  {
    if i > 0 {
      assert ss[i := t][1..] == ss[1..][i - 1 := t];
      ConcatUpdate(ss[1..], i - 1, t);
      assert ss[1..][i - 1] == ss[i];
      var rest := ss[1..][i - 1 := t];
      assert multiset(Concat(rest)) + multiset(ss[i]) == multiset(Concat(ss[1..])) + multiset(t);
      calc {
        multiset(Concat(ss[i := t])) + multiset(ss[i]);
        multiset(ss[0]) + (multiset(Concat(rest)) + multiset(ss[i]));
        multiset(ss[0]) + (multiset(Concat(ss[1..])) + multiset(t));
        multiset(Concat(ss)) + multiset(t);
      }
    } else {
      assert ss[i := t][1..] == ss[1..];
    }
  }

  /** Concatenating empty sequences gives the empty sequence. */
  lemma {:induction false} ConcatOfEmpties<T>(ss: seq<seq<T>>)
    requires forall i :: 0 <= i < |ss| ==> ss[i] == []
    ensures Concat(ss) == []
  {
    if ss != [] {
      ConcatOfEmpties(ss[1..]);
    }
  }

  /** Concatenations of element-wise permutations are permutations of each other. */
  lemma {:induction false} ConcatPermutation<T>(ss: seq<seq<T>>, ts: seq<seq<T>>)
    requires |ss| == |ts|
    requires forall i :: 0 <= i < |ss| ==> multiset(ss[i]) == multiset(ts[i])
    ensures multiset(Concat(ss)) == multiset(Concat(ts))
  {
    if ss != [] {
      ConcatPermutation(ss[1..], ts[1..]);
    }
  }
}

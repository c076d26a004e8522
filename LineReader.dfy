/**
 * Reading lines with `BufRead::read_until(b'\n', ..)` and writing them back
 * with `write_all`: a line keeps its delimiter, and only the last line of a
 * file may lack one.
 */
module LineReader {
  import opened Lines

  /**
   * How many bytes one `read_until(b'\n', ..)` consumes at the start of `d`:
   * up to and including the first delimiter, or everything when there is
   * none. Zero only at end of input, which is when the reading loops stop.
   */
  function LineLen(d: seq<Byte>): (n: nat)
    ensures n <= |d|
    ensures d != [] ==> n > 0
    ensures forall j :: 0 <= j < n - 1 ==> d[j] != Newline
    ensures n < |d| ==> 0 < n && d[n - 1] == Newline
  {
    if d == [] then 0
    else if d[0] == Newline then 1
    else 1 + LineLen(d[1..])
  }

  /** The four properties in LineLen's contract pin the length down. */
  lemma LineLenUnique(d: seq<Byte>, n: nat)
    requires n <= |d|
    requires d != [] ==> n > 0
    requires forall j :: 0 <= j < n - 1 ==> d[j] != Newline
    requires n < |d| ==> 0 < n && d[n - 1] == Newline
    ensures n == LineLen(d)
  {
  }

  /** No delimiter anywhere but possibly in the last position. */
  ghost predicate OneLine(l: Line) {
    forall j :: 0 <= j < |l| - 1 ==> l[j] != Newline
  }

  /** A line that ends with its delimiter and holds no other. */
  ghost predicate Complete(l: Line) {
    |l| > 0 && l[|l| - 1] == Newline && OneLine(l)
  }

  /**
   * The shape of what successive `read_until` calls return: non-empty lines,
   * each holding a delimiter only at its end, every one but the last ending
   * with it.
   */
  ghost predicate WellFormed(ls: seq<Line>) {
    forall i :: 0 <= i < |ls| ==>
      |ls[i]| > 0 && OneLine(ls[i]) && (i < |ls| - 1 ==> ls[i][|ls[i]| - 1] == Newline)
  }

  /** Every line complete. */
  ghost predicate AllComplete(ls: seq<Line>) {
    forall i :: 0 <= i < |ls| ==> Complete(ls[i])
  }

  lemma AllCompleteAppend(ls: seq<Line>, l: Line)
    requires AllComplete(ls) && Complete(l)
    ensures AllComplete(ls + [l])
  {
    forall i | 0 <= i < |ls| + 1
      ensures Complete((ls + [l])[i])
    {
      if i < |ls| {
        assert (ls + [l])[i] == ls[i];
      }
    }
  }

  /** Lines made only of complete lines are well formed. */
  lemma CompleteIsWellFormed(ls: seq<Line>)
    requires AllComplete(ls)
    ensures WellFormed(ls)
  {
  }

  /**
   * The lines the `while read_until(..) > 0` loops see in `d`. Reading loses
   * nothing: the lines written back give `d` again.
   */
  function SplitLines(d: seq<Byte>): (ls: seq<Line>)
    ensures Concat(ls) == d
    ensures ls == [] <==> d == []
    decreases |d|
  {
    if d == [] then []
    else
      var n := LineLen(d);
      assert d == d[..n] + d[n..];
      [d[..n]] + SplitLines(d[n..])
  }

  /** What the reading loops see has the shape of lines as `read_until` returns them. */
  lemma {:induction false} SplitLinesWellFormed(d: seq<Byte>)
    ensures WellFormed(SplitLines(d))
    decreases |d|
  {
    if d != [] {
      var n := LineLen(d);
      var rest := SplitLines(d[n..]);
      SplitLinesWellFormed(d[n..]);
      var ls := SplitLines(d);
      assert ls == [d[..n]] + rest;
      forall i | 0 <= i < |ls|
        ensures |ls[i]| > 0 && OneLine(ls[i]) && (i < |ls| - 1 ==> ls[i][|ls[i]| - 1] == Newline)
      {
        if i == 0 {
          assert ls[0] == d[..n];
          if |ls| > 1 {
            assert rest != [];
          }
        } else {
          assert ls[i] == rest[i - 1];
        }
      }
    }
  }

  /** Well-formed lines written out and read back are the same lines. */
  lemma {:induction false} SplitConcat(ls: seq<Line>)
    requires WellFormed(ls)
    ensures SplitLines(Concat(ls)) == ls
  {
    if ls != [] {
      var h, rest := ls[0], Concat(ls[1..]);
      var d := h + rest;
      assert Concat(ls) == d;
      FirstLineLen(ls, h, rest);
      assert d[..|h|] == h && d[|h|..] == rest;
      assert WellFormed(ls[1..]);
      SplitConcat(ls[1..]);
    }
  }

  lemma FirstLineLen(ls: seq<Line>, h: Line, rest: seq<Byte>)
    requires WellFormed(ls) && ls != []
    requires h == ls[0] && rest == Concat(ls[1..])
    ensures LineLen(h + rest) == |h|
  {
    var d := h + rest;
    assert |h| > 0 && OneLine(h);
    if rest != [] {
      assert |ls| > 1;
      assert h[|h| - 1] == Newline;
    }
    assert forall j :: 0 <= j < |h| - 1 ==> d[j] == h[j];
    LineLenUnique(d, |h|);
  }

  /** The same step, when a line is there to be read. */
  lemma SplitLinesNext(d: seq<Byte>, pos: nat, next: nat)
    requires pos < next <= |d| && next == pos + LineLen(d[pos..])
    ensures SplitLines(d[pos..]) == [d[pos..next]] + SplitLines(d[next..])
  {
    var e := d[pos..];
    assert e[..next - pos] == d[pos..next];
    assert e[next - pos..] == d[next..];
  }

  /**
   * `reader.read_until(b'\n', &mut line)` on a reader positioned at `pos` of
   * `data`, into an empty `line`: the bytes up to and including the next
   * delimiter, or to the end. `next - pos` is the count it returns.
   */
  method ReadUntil(data: seq<Byte>, pos: nat) returns (line: Line, next: nat)
    requires pos <= |data|
    ensures next == pos + LineLen(data[pos..])
    ensures line == data[pos..next]
  {
    line := [];
    next := pos;
    while next < |data|
      invariant pos <= next <= |data|
      invariant line == data[pos..next]
      invariant forall j :: pos <= j < next ==> data[j] != Newline
    {
      var b := data[next];
      line := line + [b];
      next := next + 1;
      if b == Newline {
        break;
      }
    }
    LineLenUnique(data[pos..], next - pos);
  }
}

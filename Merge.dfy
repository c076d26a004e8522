/**
 * Phase 2, `merge_chunks`: a k-way merge of the sorted chunk files through a
 * max-heap of reversed-order `HeapItem`s, holding at most one frontier entry
 * per chunk reader, and writing a popped line only when it differs from the
 * last line written.
 */
module Merge {
  import opened Wrappers
  import opened Lines
  import opened LineReader
  import opened Sorting
  import opened Heap

  /**
   * What the merge loop writes for the lines it pops, in pop order: each
   * line unless it equals the one written last (`last_written`). It keeps
   * every distinct line, ends with the last line popped, and never writes the
   * same line twice in a row.
   */
  function Dedup(s: seq<Line>): (r: seq<Line>)
    ensures forall x :: x in r <==> x in s
    ensures s != [] ==> r != [] && r[|r| - 1] == s[|s| - 1]
    ensures forall i :: 0 < i < |r| ==> r[i - 1] != r[i]
  {
    if s == [] then []
    else
      var d := Dedup(s[..|s| - 1]);
      assert s == s[..|s| - 1] + [s[|s| - 1]];
      if d != [] && d[|d| - 1] == s[|s| - 1] then d else d + [s[|s| - 1]]
  }

  /**
   * On sorted pops the comparison with the last written line alone removes
   * every duplicate: the output is strictly increasing.
   */
  lemma {:induction false} DedupOfSorted(s: seq<Line>)
    requires Sorted(s)
    ensures StrictlySorted(Dedup(s))
  {
    if s != [] {
      var t := s[..|s| - 1];
      var x := s[|s| - 1];
      assert Sorted(t);
      DedupOfSorted(t);
      var d := Dedup(t);
      if !(d != [] && d[|d| - 1] == x) && d != [] {
        assert d[|d| - 1] == t[|t| - 1];
        assert Le(d[|d| - 1], x);
        assert Lt(d[|d| - 1], x) by {
          CmpReverse(d[|d| - 1], x);
        }
        forall i, j | 0 <= i < j < |d| + 1
          ensures Lt((d + [x])[i], (d + [x])[j])
        {
          if j == |d| {
            if i < |d| - 1 {
              CmpTransitive(d[i], d[|d| - 1], x);
            }
          }
        }
      }
    }
  }

  /** One more popped line is written unless it equals the last one written. */
  lemma DedupStep(s: seq<Line>, x: Line)
    ensures Dedup(s + [x]) == if Dedup(s) != [] && Dedup(s)[|Dedup(s)| - 1] == x then Dedup(s) else Dedup(s) + [x]
  {
    assert (s + [x])[..|s|] == s;
  }

  /** A line without repeats in a row is its own deduplication. */
  lemma {:induction false} DedupOfDistinct(s: seq<Line>)
    requires forall i :: 0 < i < |s| ==> s[i - 1] != s[i]
    ensures Dedup(s) == s
  {
    if s != [] {
      DedupOfDistinct(s[..|s| - 1]);
    }
  }

  /** `Some(l)` is one pending line, `None` none. */
  function OptLine(f: Option<Line>): seq<Line> {
    if f.Some? then [f.value] else []
  }

  /** The heap entry a reader with frontier `f` contributes. */
  ghost function Entry(f: Option<Line>, i: nat): multiset<HeapItem> {
    if f.Some? then multiset{HeapItem(f.value, i)} else multiset{}
  }

  /** The heap entries of readers `0` to `k - 1`: one per reader that has a pending line. */
  ghost function FrontierItems(frontier: seq<Option<Line>>, k: nat): multiset<HeapItem>
    requires k <= |frontier|
  {
    if k == 0 then multiset{} else FrontierItems(frontier, k - 1) + Entry(frontier[k - 1], k - 1)
  }

  /** At most one entry per reader: the heap never holds more entries than there are readers. */
  lemma {:induction false} FrontierItemsSize(frontier: seq<Option<Line>>, k: nat)
    requires k <= |frontier|
    ensures |FrontierItems(frontier, k)| <= k
  {
    if k > 0 {
      FrontierItemsSize(frontier, k - 1);
    }
  }

  /** An entry of reader `i` carries reader `i`'s pending line. */
  lemma {:induction false} FrontierItemsMember(frontier: seq<Option<Line>>, k: nat, x: HeapItem)
    requires k <= |frontier|
    requires x in FrontierItems(frontier, k)
    ensures x.index < k && frontier[x.index] == Some(x.line)
  {
    if x !in Entry(frontier[k - 1], k - 1) {
      FrontierItemsMember(frontier, k - 1, x);
    }
  }

  /** A reader with a pending line has its entry in the heap. */
  lemma {:induction false} FrontierItemsHas(frontier: seq<Option<Line>>, k: nat, i: nat)
    requires i < k <= |frontier| && frontier[i].Some?
    ensures HeapItem(frontier[i].value, i) in FrontierItems(frontier, k)
  {
    if i < k - 1 {
      FrontierItemsHas(frontier, k - 1, i);
    }
  }

  /** Reader `x.index`, one of the first `k`, holds `x.line`. */
  ghost predicate Held(frontier: seq<Option<Line>>, k: nat, x: HeapItem)
    requires k <= |frontier|
  {
    x.index < k && frontier[x.index] == Some(x.line)
  }

  /** Reader `x.index`'s entry is in the heap exactly once when that reader holds `x.line`, and otherwise not at all. */
  lemma {:induction false} FrontierItemsCount(frontier: seq<Option<Line>>, k: nat, x: HeapItem)
    requires k <= |frontier|
    ensures FrontierItems(frontier, k)[x] == if Held(frontier, k, x) then 1 else 0
  {
    if k > 0 {
      FrontierItemsCount(frontier, k - 1, x);
      var m, e := FrontierItems(frontier, k - 1), Entry(frontier[k - 1], k - 1);
      assert FrontierItems(frontier, k) == m + e;
      EntryCount(frontier[k - 1], k - 1, x);
      if x.index == k - 1 {
        assert !Held(frontier, k - 1, x);
        assert m[x] == 0;
      } else {
        assert Held(frontier, k, x) == Held(frontier, k - 1, x);
        assert e[x] == 0;
      }
    }
  }

  lemma EntryCount(f: Option<Line>, i: nat, x: HeapItem)
    ensures Entry(f, i)[x] == if x.index == i && f == Some(x.line) then 1 else 0
  {
    if f.Some? && x != HeapItem(f.value, i) {
      assert x !in Entry(f, i);
    }
  }

  /** Changing reader `i`'s frontier swaps its entry and leaves the others alone. */
  lemma FrontierItemsUpdate(frontier: seq<Option<Line>>, k: nat, i: nat, v: Option<Line>)
    requires i < k <= |frontier|
    ensures FrontierItems(frontier[i := v], k) + Entry(frontier[i], i) == FrontierItems(frontier, k) + Entry(v, i)
  {
    var f' := frontier[i := v];
    forall x
      ensures (FrontierItems(f', k) + Entry(frontier[i], i))[x] == (FrontierItems(frontier, k) + Entry(v, i))[x]
    {
      FrontierItemsCount(f', k, x);
      FrontierItemsCount(frontier, k, x);
    }
  }

  /** A reader that held no line and now holds `v` adds `v`'s entry. */
  lemma FrontierItemsFill(frontier: seq<Option<Line>>, i: nat, v: Option<Line>)
    requires i < |frontier| && frontier[i] == None
    ensures FrontierItems(frontier[i := v], |frontier|) == FrontierItems(frontier, |frontier|) + Entry(v, i)
  {
    FrontierItemsUpdate(frontier, |frontier|, i, v);
    assert Entry(frontier[i], i) == multiset{};
  }

  /** The heap is empty exactly when no reader holds a line, that is when every reader is exhausted. */
  lemma HeapEmptyIffExhausted(frontier: seq<Option<Line>>, items: seq<HeapItem>)
    requires multiset(items) == FrontierItems(frontier, |frontier|)
    ensures items == [] <==> forall j :: 0 <= j < |frontier| ==> frontier[j].None?
  {
    if items == [] {
      forall j | 0 <= j < |frontier|
        ensures frontier[j].None?
      {
        if frontier[j].Some? {
          FrontierItemsHas(frontier, |frontier|, j);
        }
      }
    } else {
      assert items[0] in multiset(items);
      FrontierItemsMember(frontier, |frontier|, items[0]);
    }
  }

  /** With no reader holding a line the heap is empty. */
  lemma {:induction false} FrontierItemsNone(frontier: seq<Option<Line>>, k: nat)
    requires k <= |frontier|
    requires forall j :: 0 <= j < k ==> frontier[j].None?
    ensures FrontierItems(frontier, k) == multiset{}
  {
    if k > 0 {
      FrontierItemsNone(frontier, k - 1);
    }
  }

  /** The lines each chunk file reads back as. */
  ghost function ReadAll(files: seq<seq<Byte>>): (r: seq<seq<Line>>)
    ensures |r| == |files|
    ensures forall i :: 0 <= i < |files| ==> r[i] == SplitLines(files[i])
  {
    seq(|files|, i requires 0 <= i < |files| => SplitLines(files[i]))
  }

  /** Every line of every chunk file, file after file. */
  ghost function AllLines(files: seq<seq<Byte>>): seq<Line> {
    Concat(ReadAll(files))
  }

  /** Each chunk file reads back sorted, as phase 1 leaves them. */
  ghost predicate AllSorted(files: seq<seq<Byte>>) {
    forall i :: 0 <= i < |files| ==> Sorted(SplitLines(files[i]))
  }

  /**
   * Reader state: positioned at byte `pos` of `file`, with frontier entry `f`
   * (the line it last read, not yet popped) and `p` the lines of the file not
   * yet popped. A reader without an entry is exhausted.
   */
  ghost predicate ReaderState(file: seq<Byte>, pos: nat, f: Option<Line>, p: seq<Line>) {
    && pos <= |file|
    && p == OptLine(f) + SplitLines(file[pos..])
    && (f.None? ==> pos == |file|)
  }

  /** Readers `0` to `i - 1` have been opened and have read their first line. */
  ghost predicate ReadersBelow(files: seq<seq<Byte>>, positions: seq<nat>, frontier: seq<Option<Line>>, i: nat) {
    && i <= |files| == |positions| == |frontier|
    && (forall j :: 0 <= j < i ==> ReaderState(files[j], positions[j], frontier[j], SplitLines(files[j])))
    && (forall j :: i <= j < |frontier| ==> frontier[j] == None)
  }

  /** Opening reader `i` extends the opened readers by one. */
  lemma ReadersBelowStep(files: seq<seq<Byte>>, positions: seq<nat>, frontier: seq<Option<Line>>, i: nat, line: Line, next: nat)
    requires ReadersBelow(files, positions, frontier, i) && i < |files|
    requires next == LineLen(files[i]) && line == files[i][..next]
    ensures ReadersBelow(files, positions[i := next], frontier[i := Advance(line)], i + 1)
  {
    ReaderStart(files[i], line, next);
  }

  /** With every reader opened, all of them are in a consistent state. */
  lemma ReadersOpened(files: seq<seq<Byte>>, positions: seq<nat>, frontier: seq<Option<Line>>)
    requires ReadersBelow(files, positions, frontier, |files|)
    ensures Readers(files, positions, frontier, ReadAll(files))
  {
  }

  /** One reader per chunk file, each in a consistent state. */
  ghost predicate Readers(files: seq<seq<Byte>>, positions: seq<nat>, frontier: seq<Option<Line>>, pending: seq<seq<Line>>) {
    && |positions| == |frontier| == |pending| == |files|
    && forall j :: 0 <= j < |files| ==> ReaderState(files[j], positions[j], frontier[j], pending[j])
  }

  /**
   * What sorted chunks give the merge: every reader's remaining lines are
   * sorted, the lines popped so far are sorted, and none of them exceeds a
   * line still waiting in the heap.
   */
  ghost predicate Ordered(files: seq<seq<Byte>>, frontier: seq<Option<Line>>, pending: seq<seq<Line>>, popped: seq<Line>) {
    AllSorted(files) ==>
      && (forall j :: 0 <= j < |pending| ==> Sorted(pending[j]))
      && Sorted(popped)
      && (popped != [] ==>
            forall j :: 0 <= j < |frontier| && frontier[j].Some? ==> Le(popped[|popped| - 1], frontier[j].value))
  }

  /** What one more `read_until` makes of the reader whose line was popped. */
  function Advance(next: Line): Option<Line> {
    if |next| > 0 then Some(next) else None
  }

  /** The popped reader reads its next line, or finds its file exhausted. */
  lemma ReaderAdvance(file: seq<Byte>, pos: nat, line: Line, p: seq<Line>, next: Line, nextPos: nat)
    requires ReaderState(file, pos, Some(line), p)
    requires nextPos == pos + LineLen(file[pos..]) && next == file[pos..nextPos]
    ensures p != [] && p[0] == line
    ensures ReaderState(file, nextPos, Advance(next), p[1..])
  {
    assert p[1..] == SplitLines(file[pos..]);
    if nextPos > pos {
      ReaderNext(file, pos, next, nextPos);
    } else {
      assert file[nextPos..] == [];
    }
  }

  lemma ReaderNext(file: seq<Byte>, pos: nat, next: Line, nextPos: nat)
    requires pos <= |file|
    requires pos < nextPos == pos + LineLen(file[pos..]) && next == file[pos..nextPos]
    ensures SplitLines(file[pos..]) == OptLine(Advance(next)) + SplitLines(file[nextPos..])
  {
    assert |next| == nextPos - pos > 0;
    assert OptLine(Advance(next)) == [next];
    SplitLinesNext(file, pos, nextPos);
  }

  lemma ReadersStep(files: seq<seq<Byte>>, positions: seq<nat>, frontier: seq<Option<Line>>, pending: seq<seq<Line>>,
                    index: nat, line: Line, next: Line, nextPos: nat)
    requires Readers(files, positions, frontier, pending)
    requires index < |files| && frontier[index] == Some(line)
    requires nextPos == positions[index] + LineLen(files[index][positions[index]..])
    requires next == files[index][positions[index]..nextPos]
    ensures pending[index] != [] && pending[index][0] == line
    ensures Readers(files, positions[index := nextPos], frontier[index := Advance(next)], pending[index := pending[index][1..]])
  {
    ReaderAdvance(files[index], positions[index], line, pending[index], next, nextPos);
  }

  /** Popping the least waiting line keeps the merge ordered. */
  lemma OrderedStep(files: seq<seq<Byte>>, frontier: seq<Option<Line>>, pending: seq<seq<Line>>, popped: seq<Line>,
                    index: nat, line: Line, v: Option<Line>)
    requires Ordered(files, frontier, pending, popped)
    requires |frontier| == |pending| && index < |pending|
    requires frontier[index] == Some(line) && pending[index] != [] && pending[index][0] == line
    requires forall j :: 0 <= j < |frontier| && frontier[j].Some? ==> Le(line, frontier[j].value)
    requires v.Some? ==> pending[index][1..] != [] && v.value == pending[index][1]
    ensures Ordered(files, frontier[index := v], pending[index := pending[index][1..]], popped + [line])
  {
    if AllSorted(files) {
      var pending' := pending[index := pending[index][1..]];
      var frontier' := frontier[index := v];
      assert Sorted(pending[index]);
      forall j | 0 <= j < |pending'|
        ensures Sorted(pending'[j])
      {
        if j != index {
          assert pending'[j] == pending[j];
        }
      }
      SortedAppend(popped, line);
      forall j | 0 <= j < |frontier'| && frontier'[j].Some?
        ensures Le(line, frontier'[j].value)
      {
        if j == index {
          assert pending[index][0] == line;
        } else {
          assert frontier'[j] == frontier[j];
        }
      }
    }
  }

  /** Popping the first pending line of one reader moves exactly that line from what is pending to what is popped. */
  lemma PendingStep(pending: seq<seq<Line>>, popped: seq<Line>, index: nat, line: Line)
    requires index < |pending| && pending[index] != [] && pending[index][0] == line
    ensures multiset(Concat(pending[index := pending[index][1..]])) + multiset{line} == multiset(Concat(pending))
    ensures multiset(popped + [line]) + multiset(Concat(pending[index := pending[index][1..]]))
         == multiset(popped) + multiset(Concat(pending))
  {
    var rest := pending[index][1..];
    ConcatUpdate(pending, index, rest);
    assert pending[index] == [line] + rest;
    var A, B := multiset(Concat(pending[index := rest])), multiset(Concat(pending));
    var R := multiset(rest);
    assert (A + multiset{line}) + R == B + R;
    forall x
      ensures (A + multiset{line})[x] == B[x]
    {
      assert ((A + multiset{line}) + R)[x] == (B + R)[x];
    }
    assert multiset(popped + [line]) == multiset(popped) + multiset{line};
  }

  /** Sequences with the same bag of elements have the same elements. */
  lemma SameElements(a: seq<Line>, b: seq<Line>)
    requires multiset(a) == multiset(b)
    ensures forall x :: x in a <==> x in b
  {
    forall x
      ensures x in a <==> x in b
    {
      assert x in a <==> x in multiset(a);
      assert x in b <==> x in multiset(b);
    }
  }

  /** The heap swaps the popped reader's entry for the entry of its next line, if any. */
  lemma HeapStep(frontier: seq<Option<Line>>, before: seq<HeapItem>, after: seq<HeapItem>, index: nat, line: Line, v: Option<Line>)
    requires index < |frontier| && frontier[index] == Some(line)
    requires multiset(before) == FrontierItems(frontier, |frontier|)
    requires HeapItem(line, index) in before
    requires multiset(after) == (multiset(before) - multiset{HeapItem(line, index)}) + Entry(v, index)
    ensures multiset(after) == FrontierItems(frontier[index := v], |frontier|)
  {
    FrontierItemsUpdate(frontier, |frontier|, index, v);
    var top := HeapItem(line, index);
    assert Entry(frontier[index], index) == multiset{top};
    var F, F' := FrontierItems(frontier, |frontier|), FrontierItems(frontier[index := v], |frontier|);
    assert F' + multiset{top} == F + Entry(v, index);
    forall x
      ensures multiset(after)[x] == F'[x]
    {
      assert (F' + multiset{top})[x] == (F + Entry(v, index))[x];
    }
  }

  /** Priming: a reader that has read its first line, or found its file empty. */
  lemma ReaderStart(file: seq<Byte>, line: Line, next: nat)
    requires next == LineLen(file) && line == file[..next]
    ensures ReaderState(file, next, Advance(line), SplitLines(file))
  {
    assert file[0..] == file;
    if next > 0 {
      ReaderNext(file, 0, line, next);
    } else {
      assert file[next..] == [];
    }
  }

  /** The line the heap yields is no larger than any line waiting in it. */
  lemma HeapTopIsLeast(frontier: seq<Option<Line>>, items: seq<HeapItem>, top: HeapItem)
    requires multiset(items) == FrontierItems(frontier, |frontier|)
    requires IsMax(top, items)
    ensures forall j :: 0 <= j < |frontier| && frontier[j].Some? ==> Le(top.line, frontier[j].value)
  {
    MaxHasLeastLine(top, items);
    forall j | 0 <= j < |frontier| && frontier[j].Some?
      ensures Le(top.line, frontier[j].value)
    {
      FrontierItemsHas(frontier, |frontier|, j);
      assert HeapItem(frontier[j].value, j) in items;
    }
  }

  /** Once the heap is empty every reader is exhausted and nothing is left to pop. */
  lemma AllExhausted(files: seq<seq<Byte>>, positions: seq<nat>, frontier: seq<Option<Line>>, pending: seq<seq<Line>>)
    requires Readers(files, positions, frontier, pending)
    requires FrontierItems(frontier, |frontier|) == multiset{}
    ensures Concat(pending) == []
  {
    forall j | 0 <= j < |pending|
      ensures pending[j] == []
    {
      if frontier[j].Some? {
        FrontierItemsHas(frontier, |frontier|, j);
      }
      assert files[j][positions[j]..] == [];
    }
    ConcatOfEmpties(pending);
  }

  /**
   * The priming loop of `merge_chunks`: every reader reads its first line,
   * and each one that gets a line puts it in a fresh heap, tagged with the
   * reader's index.
   */
  method OpenReaders(files: seq<seq<Byte>>) returns (heap: MaxHeap, positions: seq<nat>, ghost frontier: seq<Option<Line>>)
    ensures fresh(heap)
    ensures HeapInv(files, positions, frontier, ReadAll(files), heap.items)
    ensures |heap.items| <= |files|
  {
    var n := |files|;
    heap := new MaxHeap();
    positions := seq(n, _ => 0);
    frontier := seq(n, _ => None);
    FrontierItemsNone(frontier, n);
    for i := 0 to n
      invariant ReadersBelow(files, positions, frontier, i)
      invariant multiset(heap.items) == FrontierItems(frontier, n)
      invariant |heap.items| <= n
    {
      var line, next := ReadUntil(files[i], 0);
      assert files[i][0..] == files[i];
      ReadersBelowStep(files, positions, frontier, i, line, next);
      FrontierItemsFill(frontier, i, Advance(line));
      if |line| > 0 {
        heap.Push(HeapItem(line, i));
        assert Entry(Advance(line), i) == multiset{HeapItem(line, i)};
      } else {
        assert Entry(Advance(line), i) == multiset{};
      }
      frontier := frontier[i := Advance(line)];
      positions := positions[i := next];
      FrontierItemsSize(frontier, n);
    }
    ReadersOpened(files, positions, frontier);
  }

  /**
   * The merge loop's invariant on the readers and the heap: the readers are
   * consistent, and the heap holds exactly one entry per reader that has a
   * line.
   */
  ghost predicate HeapInv(files: seq<seq<Byte>>, positions: seq<nat>, frontier: seq<Option<Line>>, pending: seq<seq<Line>>,
                          items: seq<HeapItem>) {
    && Readers(files, positions, frontier, pending)
    && multiset(items) == FrontierItems(frontier, |files|)
    && |items| <= |files|
  }

  /**
   * The merge loop's invariant on what has been popped: every line read is
   * either popped or still pending, the output is the deduplicated pops with
   * `lastWritten` its last line, and sorted chunks keep the pops in order.
   */
  ghost predicate OutputInv(files: seq<seq<Byte>>, frontier: seq<Option<Line>>, pending: seq<seq<Line>>,
                            popped: seq<Line>, out: seq<Line>, lastWritten: Option<Line>) {
    && multiset(popped) + multiset(Concat(pending)) == multiset(AllLines(files))
    && out == Dedup(popped)
    && lastWritten == (if out == [] then None else Some(out[|out| - 1]))
    && Ordered(files, frontier, pending, popped)
  }

  /** Both invariants of the merge loop. */
  ghost predicate MergeInv(files: seq<seq<Byte>>, positions: seq<nat>, frontier: seq<Option<Line>>, pending: seq<seq<Line>>,
                           items: seq<HeapItem>, popped: seq<Line>, out: seq<Line>, lastWritten: Option<Line>) {
    HeapInv(files, positions, frontier, pending, items) && OutputInv(files, frontier, pending, popped, out, lastWritten)
  }

  /** Before the first pop nothing is popped or written, and every line of every chunk is pending. */
  lemma MergeStart(files: seq<seq<Byte>>, positions: seq<nat>, frontier: seq<Option<Line>>, items: seq<HeapItem>)
    requires HeapInv(files, positions, frontier, ReadAll(files), items)
    ensures MergeInv(files, positions, frontier, ReadAll(files), items, [], [], None)
  {
    assert Concat(ReadAll(files)) == AllLines(files);
  }

  /** The entry the heap yields belongs to a reader holding that line. */
  lemma HeapInvTop(files: seq<seq<Byte>>, positions: seq<nat>, frontier: seq<Option<Line>>, pending: seq<seq<Line>>,
                   items: seq<HeapItem>, top: HeapItem)
    requires HeapInv(files, positions, frontier, pending, items)
    requires top in items
    ensures top.index < |files| && frontier[top.index] == Some(top.line)
  {
    assert top in multiset(items);
    FrontierItemsMember(frontier, |files|, top);
  }

  /** The popped reader reads on and the heap takes its next line, if any, in place of the popped one. */
  lemma HeapInvStep(files: seq<seq<Byte>>, positions: seq<nat>, frontier: seq<Option<Line>>, pending: seq<seq<Line>>,
                    items: seq<HeapItem>, top: HeapItem, next: Line, nextPos: nat, items': seq<HeapItem>)
    requires HeapInv(files, positions, frontier, pending, items)
    requires top in items && top.index < |files| && frontier[top.index] == Some(top.line)
    requires nextPos == positions[top.index] + LineLen(files[top.index][positions[top.index]..])
    requires next == files[top.index][positions[top.index]..nextPos]
    requires multiset(items') == (multiset(items) - multiset{top}) + Entry(Advance(next), top.index)
    ensures pending[top.index] != [] && pending[top.index][0] == top.line
    ensures Advance(next).Some? ==> |pending[top.index]| > 1 && pending[top.index][1] == next
    ensures var i := top.index;
      HeapInv(files, positions[i := nextPos], frontier[i := Advance(next)], pending[i := pending[i][1..]], items')
  {
    var i := top.index;
    ReadersStep(files, positions, frontier, pending, i, top.line, next, nextPos);
    HeapStep(frontier, items, items', i, top.line, Advance(next));
    FrontierItemsSize(frontier[i := Advance(next)], |files|);
  }

  /** Popping the heap's greatest item, whose line is the least one held, keeps the merge ordered. */
  lemma OrderedPop(files: seq<seq<Byte>>, frontier: seq<Option<Line>>, pending: seq<seq<Line>>, popped: seq<Line>,
                   items: seq<HeapItem>, top: HeapItem, v: Option<Line>)
    requires Ordered(files, frontier, pending, popped)
    requires |frontier| == |pending| && top.index < |pending|
    requires multiset(items) == FrontierItems(frontier, |frontier|) && IsMax(top, items)
    requires frontier[top.index] == Some(top.line)
    requires pending[top.index] != [] && pending[top.index][0] == top.line
    requires v.Some? ==> |pending[top.index]| > 1 && v.value == pending[top.index][1]
    ensures var i := top.index;
      Ordered(files, frontier[i := v], pending[i := pending[i][1..]], popped + [top.line])
  {
    HeapTopIsLeast(frontier, items, top);
    OrderedStep(files, frontier, pending, popped, top.index, top.line, v);
  }

  /** Popping the least waiting line and writing it unless it repeats the last one keeps the output invariant. */
  lemma OutputInvStep(files: seq<seq<Byte>>, frontier: seq<Option<Line>>, pending: seq<seq<Line>>,
                      popped: seq<Line>, out: seq<Line>, lastWritten: Option<Line>,
                      items: seq<HeapItem>, top: HeapItem, v: Option<Line>, out': seq<Line>)
    requires OutputInv(files, frontier, pending, popped, out, lastWritten)
    requires |frontier| == |pending| && top.index < |pending|
    requires multiset(items) == FrontierItems(frontier, |frontier|) && IsMax(top, items)
    requires frontier[top.index] == Some(top.line)
    requires pending[top.index] != [] && pending[top.index][0] == top.line
    requires v.Some? ==> |pending[top.index]| > 1 && v.value == pending[top.index][1]
    requires out' == if lastWritten.None? || lastWritten.value != top.line then out + [top.line] else out
    ensures var i := top.index;
      OutputInv(files, frontier[i := v], pending[i := pending[i][1..]], popped + [top.line], out', Some(top.line))
    ensures |multiset(Concat(pending[top.index := pending[top.index][1..]]))| + 1 == |multiset(Concat(pending))|
  {
    OrderedPop(files, frontier, pending, popped, items, top, v);
    PendingPop(files, pending, popped, top.index, top.line);
    WritePop(popped, out, lastWritten, top.line, out');
  }

  /** The popped line leaves what is pending for what is popped: every line read is still accounted for once. */
  lemma PendingPop(files: seq<seq<Byte>>, pending: seq<seq<Line>>, popped: seq<Line>, index: nat, line: Line)
    requires multiset(popped) + multiset(Concat(pending)) == multiset(AllLines(files))
    requires index < |pending| && pending[index] != [] && pending[index][0] == line
    ensures multiset(popped + [line]) + multiset(Concat(pending[index := pending[index][1..]])) == multiset(AllLines(files))
    ensures |multiset(Concat(pending[index := pending[index][1..]]))| + 1 == |multiset(Concat(pending))|
  {
    PendingStep(pending, popped, index, line);
  }

  /** Writing the popped line unless it equals `last_written` keeps the output the deduplicated pops. */
  lemma WritePop(popped: seq<Line>, out: seq<Line>, lastWritten: Option<Line>, line: Line, out': seq<Line>)
    requires out == Dedup(popped)
    requires lastWritten == (if out == [] then None else Some(out[|out| - 1]))
    requires out' == if lastWritten.None? || lastWritten.value != line then out + [line] else out
    ensures out' == Dedup(popped + [line])
    ensures Some(line) == (if out' == [] then None else Some(out'[|out'| - 1]))
  {
    DedupStep(popped, line);
  }

  /**
   * One pass of the merge loop: the heap has yielded `top` (its contents are
   * now `popped`), the reader it came from has read `next`, which went into
   * the heap if it is a line, and the output has taken the popped line
   * unless it repeats the last one. Both invariants hold again, and one
   * pending line fewer is left.
   */
  lemma MergeStep(files: seq<seq<Byte>>, positions: seq<nat>, frontier: seq<Option<Line>>, pending: seq<seq<Line>>,
                  items: seq<HeapItem>, popped: seq<Line>, out: seq<Line>, lastWritten: Option<Line>,
                  top: HeapItem, rest: seq<HeapItem>, next: Line, nextPos: nat, items': seq<HeapItem>, out': seq<Line>)
    requires HeapInv(files, positions, frontier, pending, items)
    requires OutputInv(files, frontier, pending, popped, out, lastWritten)
    requires IsMax(top, items) && multiset(rest) == multiset(items) - multiset{top}
    requires top.index < |files| && frontier[top.index] == Some(top.line)
    requires nextPos == positions[top.index] + LineLen(files[top.index][positions[top.index]..])
    requires next == files[top.index][positions[top.index]..nextPos]
    requires multiset(items') == if |next| > 0 then multiset(rest) + multiset{HeapItem(next, top.index)} else multiset(rest)
    requires out' == if lastWritten.None? || lastWritten.value != top.line then out + [top.line] else out
    ensures var i := top.index;
      && HeapInv(files, positions[i := nextPos], frontier[i := Advance(next)], pending[i := pending[i][1..]], items')
      && OutputInv(files, frontier[i := Advance(next)], pending[i := pending[i][1..]], popped + [top.line], out', Some(top.line))
    ensures |multiset(Concat(pending[top.index := pending[top.index][1..]]))| + 1 == |multiset(Concat(pending))|
  {
    if |next| > 0 {
      assert Entry(Advance(next), top.index) == multiset{HeapItem(next, top.index)};
    } else {
      assert Entry(Advance(next), top.index) == multiset{};
    }
    HeapInvStep(files, positions, frontier, pending, items, top, next, nextPos, items');
    OutputInvStep(files, frontier, pending, popped, out, lastWritten, items, top, Advance(next), out');
  }

  /** When the heap is empty every line has been popped. */
  lemma MergeDone(files: seq<seq<Byte>>, positions: seq<nat>, frontier: seq<Option<Line>>, pending: seq<seq<Line>>,
                  popped: seq<Line>, out: seq<Line>, lastWritten: Option<Line>)
    requires Readers(files, positions, frontier, pending)
    requires FrontierItems(frontier, |frontier|) == multiset{}
    requires OutputInv(files, frontier, pending, popped, out, lastWritten)
    ensures multiset(popped) == multiset(AllLines(files))
    ensures AllSorted(files) ==> Sorted(popped)
  {
    AllExhausted(files, positions, frontier, pending);
  }

  /** What popping every line of the chunks once gives, and what sorted chunks add to it. */
  lemma MergeResult(files: seq<seq<Byte>>, popped: seq<Line>)
    requires multiset(popped) == multiset(AllLines(files))
    requires AllSorted(files) ==> Sorted(popped)
    ensures forall x :: x in Dedup(popped) <==> x in AllLines(files)
    ensures AllSorted(files) ==> popped == SortLines(AllLines(files))
    ensures AllSorted(files) ==> StrictlySorted(Dedup(popped))
  {
    SameElements(popped, AllLines(files));
    if AllSorted(files) {
      SortedUnique(popped, SortLines(AllLines(files)));
      DedupOfSorted(popped);
    }
  }

  /**
   * One pass of `merge_chunks`' loop: pop the heap; if it was empty, report
   * `done` and change nothing. Otherwise write the popped line unless it
   * equals the last one written, and let the reader it came from read its
   * next line into the heap. The loop's invariants hold again afterwards, and
   * either one pending line fewer is left or every line has been popped.
   */
  method MergeOnce(files: seq<seq<Byte>>, heap: MaxHeap, positions: seq<nat>, out: seq<Line>, lastWritten: Option<Line>,
                   ghost frontier: seq<Option<Line>>, ghost pending: seq<seq<Line>>, ghost popped: seq<Line>)
    returns (done: bool, positions': seq<nat>, out': seq<Line>, lastWritten': Option<Line>,
             ghost frontier': seq<Option<Line>>, ghost pending': seq<seq<Line>>, ghost popped': seq<Line>)
    requires MergeInv(files, positions, frontier, pending, heap.items, popped, out, lastWritten)
    modifies heap
    ensures MergeInv(files, positions', frontier', pending', heap.items, popped', out', lastWritten')
    ensures done <==> forall j :: 0 <= j < |frontier| ==> frontier[j].None?
    ensures done ==> multiset(popped') == multiset(AllLines(files)) && (AllSorted(files) ==> Sorted(popped'))
    ensures done ==> popped' == popped && out' == out && lastWritten' == lastWritten
    ensures !done ==> |popped'| == |popped| + 1 && popped'[..|popped|] == popped
    ensures !done ==> exists i :: 0 <= i < |frontier| && frontier[i] == Some(popped'[|popped|])
    ensures !done ==> forall j :: 0 <= j < |frontier| && frontier[j].Some? ==> Le(popped'[|popped|], frontier[j].value)
    ensures !done ==> out' == if lastWritten.None? || lastWritten.value != popped'[|popped|] then out + [popped'[|popped|]] else out
    ensures !done ==> |multiset(Concat(pending'))| + 1 == |multiset(Concat(pending))|
  {
    ghost var items := heap.items;
    HeapEmptyIffExhausted(frontier, items);
    var top := heap.Pop();
    if top.None? {
      MergeDone(files, positions, frontier, pending, popped, out, lastWritten);
      return true, positions, out, lastWritten, frontier, pending, popped;
    }
    var line, index := top.value.line, top.value.index;
    ghost var rest := heap.items;
    HeapInvTop(files, positions, frontier, pending, items, top.value);

    out', lastWritten' := out, lastWritten;
    if lastWritten.None? || lastWritten.value != line {
      out' := out + [line];
      lastWritten' := Some(line);
    }

    var next, nextPos := ReadUntil(files[index], positions[index]);
    if |next| > 0 {
      heap.Push(HeapItem(next, index));
    }
    MergeStep(files, positions, frontier, pending, items, popped, out, lastWritten,
              top.value, rest, next, nextPos, heap.items, out');
    HeapTopIsLeast(frontier, items, top.value);
    done := false;
    popped' := popped + [line];
    frontier' := frontier[index := Advance(next)];
    positions' := positions[index := nextPos];
    pending' := pending[index := pending[index][1..]];
  }

  /**
   * `merge_chunks`, returning the lines it writes to the output, in order
   * (the output file is their concatenation). `popped` is the sequence of
   * lines the heap yields.
   * Every line of every chunk is popped exactly once, so the loop stops only
   * when all readers are exhausted; the lines written are exactly the
   * distinct lines of the chunks; and when every chunk is sorted the pops are
   * the sorted merge of all chunks and the output is strictly increasing.
   */
  method MergeChunks(files: seq<seq<Byte>>) returns (out: seq<Line>, ghost popped: seq<Line>)
    ensures multiset(popped) == multiset(AllLines(files))
    ensures out == Dedup(popped)
    ensures forall x :: x in out <==> x in AllLines(files)
    ensures AllSorted(files) ==> popped == SortLines(AllLines(files))
    ensures AllSorted(files) ==> StrictlySorted(out)
  {
    var heap, positions;
    ghost var frontier;
    heap, positions, frontier := OpenReaders(files);
    ghost var pending := ReadAll(files);
    var lastWritten: Option<Line> := None;
    out, popped := [], [];
    MergeStart(files, positions, frontier, heap.items);
    while true
      invariant MergeInv(files, positions, frontier, pending, heap.items, popped, out, lastWritten)
      decreases |multiset(Concat(pending))|
    {
      var done;
      done, positions, out, lastWritten, frontier, pending, popped :=
        MergeOnce(files, heap, positions, out, lastWritten, frontier, pending, popped);
      if done {
        break;
      }
    }
    MergeResult(files, popped);
  }
}

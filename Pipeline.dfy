/**
 * The whole tool, `main`: phase 1 splits the input into sorted chunk
 * files, phase 2 merges them into the output. The output holds every
 * distinct input line once, in byte order.
 */
module Pipeline {
  import opened Lines
  import opened LineReader
  import opened Sorting
  import opened Chunker
  import opened Merge

  /**
   * The output the tool is meant to produce for `input`: its lines, each
   * with its delimiter, sorted, with repeats dropped.
   */
  ghost function Deduplicated(input: seq<Byte>): seq<Line> {
    Dedup(SortLines(InputLines(input)))
  }

  /** Lines that are sorted strictly have no repeat in a row. */
  lemma StrictNoRepeats(s: seq<Line>)
    requires StrictlySorted(s)
    ensures forall i :: 0 < i < |s| ==> s[i - 1] != s[i]
  {
    forall i | 0 < i < |s|
      ensures s[i - 1] != s[i]
    {
      assert Lt(s[i - 1], s[i]);
    }
  }

  /**
   * The output is strictly increasing, holds exactly the lines of the
   * input, each once, and every one of them ends with the delimiter.
   */
  lemma DeduplicatedSpec(input: seq<Byte>)
    ensures StrictlySorted(Deduplicated(input))
    ensures forall x :: x in Deduplicated(input) <==> x in InputLines(input)
    ensures |Deduplicated(input)| == |set x | x in InputLines(input)|
    ensures AllComplete(Deduplicated(input))
  {
    var lines := InputLines(input);
    var sorted := SortLines(lines);
    var d := Deduplicated(input);
    DedupOfSorted(sorted);
    SameElements(sorted, lines);
    StrictlySortedDistinct(d);
    assert (set x | x in d) == (set x | x in lines);
    InputLinesComplete(input);
    forall i | 0 <= i < |d|
      ensures Complete(d[i])
    {
      assert d[i] in lines;
    }
  }

  /**
   * Nothing else has these properties: any strictly increasing sequence of
   * exactly the input's lines is the output.
   */
  lemma DeduplicatedUnique(input: seq<Byte>, s: seq<Line>)
    requires StrictlySorted(s)
    requires forall x :: x in s <==> x in InputLines(input)
    ensures s == Deduplicated(input)
  {
    DeduplicatedSpec(input);
    StrictlySortedUnique(s, Deduplicated(input));
  }

  /** Running the tool on its own output gives the same output again. */
  lemma Idempotent(input: seq<Byte>)
    ensures Deduplicated(Concat(Deduplicated(input))) == Deduplicated(input)
  {
    var d := Deduplicated(input);
    DeduplicatedSpec(input);
    CompleteIsWellFormed(d);
    SplitConcat(d);
    TerminateAllComplete(d);
    assert InputLines(Concat(d)) == d;
    StrictIsSorted(d);
    SortLinesOfSorted(d);
    StrictNoRepeats(d);
    DedupOfDistinct(d);
  }

  /** The input's lines as the tool sees them: each line read, given its delimiter if it lacks one. */
  lemma InputLinesMembers(input: seq<Byte>, x: Line)
    ensures x in InputLines(input) <==> exists l :: l in SplitLines(input) && x == Terminate(l)
  {
    var ls := SplitLines(input);
    TerminateAllAt(ls);
    if x in InputLines(input) {
      var i :| 0 <= i < |ls| && InputLines(input)[i] == x;
      assert ls[i] in ls;
    }
    if exists l :: l in ls && x == Terminate(l) {
      var l :| l in ls && x == Terminate(l);
      var i :| 0 <= i < |ls| && ls[i] == l;
      assert InputLines(input)[i] == x;
    }
  }

  /** Each chunk file reads back sorted, so the merge sees sorted chunks. */
  lemma ChunksSorted(files: seq<seq<Byte>>, chunks: seq<seq<Line>>)
    requires |files| == |chunks|
    requires forall j :: 0 <= j < |files| ==> SplitLines(files[j]) == SortLines(chunks[j])
    ensures AllSorted(files)
    ensures multiset(AllLines(files)) == multiset(Concat(chunks))
  {
    var read := ReadAll(files);
    forall j | 0 <= j < |read|
      ensures multiset(read[j]) == multiset(chunks[j])
    {
      assert read[j] == SortLines(chunks[j]);
    }
    ConcatPermutation(read, chunks);
  }

  /**
   * `main` without its argument parsing and file handling: the bytes
   * `merge_chunks` writes after `split_into_chunks` has spilled `input` in
   * chunks of `chunkSize` lines. Whatever the chunk size, the output is the
   * deduplicated, sorted input: strictly increasing lines, exactly the lines
   * of the input and as many as it has distinct ones.
   */
  method Run(input: seq<Byte>, chunkSize: nat) returns (output: seq<Byte>)
    ensures SplitLines(output) == Deduplicated(input)
    ensures output == Concat(Deduplicated(input))
    ensures StrictlySorted(SplitLines(output))
    ensures forall x :: x in SplitLines(output) <==> x in InputLines(input)
    ensures |SplitLines(output)| == |set x | x in InputLines(input)|
    ensures output == [] <==> input == []
  {
    var files;
    ghost var chunks;
    files, chunks := SplitIntoChunks(input, chunkSize);
    var out;
    ghost var popped;
    out, popped := MergeChunks(files);
    output := Concat(out);

    var lines := InputLines(input);
    ChunksShape(lines, Capacity(chunkSize));
    ChunksSorted(files, chunks);
    SortedUnique(SortLines(AllLines(files)), SortLines(lines));
    assert out == Deduplicated(input);
    DeduplicatedSpec(input);
    CompleteIsWellFormed(out);
    SplitConcat(out);
  }

  /**
   * Where the correction changes nothing, the model is the source: on an
   * input that is empty or ends with the delimiter, the chunk files the
   * source writes all read back sorted, so by `MergeChunks` the source's
   * merge of them writes `Deduplicated(input)`, the lines read, sorted, with
   * repeats dropped; these are the bytes `Run` produces.
   */
  lemma AsWrittenAgrees(input: seq<Byte>, chunkSize: nat)
    requires Terminated(input)
    ensures AllSorted(AsWrittenChunkFiles(input, chunkSize))
    ensures SortLines(AllLines(AsWrittenChunkFiles(input, chunkSize))) == SortLines(SplitLines(input))
    ensures Dedup(SortLines(AllLines(AsWrittenChunkFiles(input, chunkSize)))) == Deduplicated(input)
  {
    InputLinesOfTerminated(input);
    var lines := InputLines(input);
    var k := Capacity(chunkSize);
    var cs := Chunks(lines, k);
    var files := AsWrittenChunkFiles(input, chunkSize);
    ChunksShape(lines, k);
    InputLinesComplete(input);
    ChunksComplete(lines, k);
    forall j | 0 <= j < |files|
      ensures SplitLines(files[j]) == SortLines(cs[j])
    {
      SortedChunkReadsBack(cs[j]);
    }
    ChunksSorted(files, cs);
    SortedUnique(SortLines(AllLines(files)), SortLines(lines));
  }

  /**
   * The input `b\na` with a chunk size of 2: the unterminated `a` sorts
   * first, its chunk file holds `ab\n`, and reading it back gives one line
   * `ab\n` that is not a line of the input. `merge_chunks` writes exactly the
   * lines it reads back, so the output would be `ab\n`.
   */
  lemma UnterminatedLineSpliced()
    ensures AsWrittenChunkFiles([98, 10, 97], 2) == [[97, 98, 10]]
    ensures AllLines(AsWrittenChunkFiles([98, 10, 97], 2)) == [[97, 98, 10]]
    ensures SplitLines([98, 10, 97]) == [[98, 10], [97]]
  {
    var input: seq<Byte> := [98, 10, 97];
    var lines: seq<Line> := [[98, 10], [97]];
    var file: seq<Byte> := [97, 98, 10];
    ReadsAsLines(input);
    assert Chunks(lines, 2) == [lines];
    SortTwo(lines);
    assert Concat([[97], [98, 10]]) == file;
    ReadsAsOneLine(file);
  }

  /**
   * What the correction gives up: with `a\na`, the unterminated `a` becomes
   * `a\n` and is deduplicated with the first line, so the output is `a\n`.
   */
  lemma UnterminatedMerged()
    ensures InputLines([97, 10, 97]) == [[97, 10], [97, 10]]
    ensures Deduplicated([97, 10, 97]) == [[97, 10]]
  {
    var input: seq<Byte> := [97, 10, 97];
    var a: Line := [97, 10];
    ReadsLineFirst(input, a);
    ReadsAsOneLine(input[2..]);
    assert SplitLines(input) == [a, [97]];
    TerminateAllAt([a, [97]]);
    assert Terminate(a) == a && Terminate([97]) == a;
    assert InputLines(input) == [a, a];
    DeduplicatedUnique(input, [a]);
  }

  /**
   * When the unterminated line is the greatest, nothing is joined: for
   * `a\nb` with a chunk size of 2 the source's chunk file is the input itself
   * and reads back as `a\n` and `b`, so the source writes `a\nb`, while the
   * corrected output is `a\nb\n`.
   */
  lemma UnterminatedGreatest()
    ensures AllLines(AsWrittenChunkFiles([97, 10, 98], 2)) == [[97, 10], [98]]
    ensures Deduplicated([97, 10, 98]) == [[97, 10], [98, 10]]
  {
    var input: seq<Byte> := [97, 10, 98];
    var a, b: Line := [97, 10], [98];
    var lines := [a, b];
    ReadsLineFirst(input, a);
    ReadsAsOneLine(input[2..]);
    assert SplitLines(input) == lines;
    assert Chunks(lines, 2) == [lines];
    assert Lt(a, b);
    SortLinesOfSorted(lines);
    assert Concat(lines) == input;
    assert AsWrittenChunkFiles(input, 2) == [input];
    assert ReadAll([input]) == [lines];
    assert Concat([lines]) == lines + Concat([]);
    TerminateAllAt(lines);
    assert Terminate(a) == a && Terminate(b) == [98, 10];
    assert InputLines(input) == [a, [98, 10]];
    assert Lt(a, [98, 10]);
    DeduplicatedUnique(input, [a, [98, 10]]);
  }

  lemma ReadsAsLines(input: seq<Byte>)
    requires input == [98, 10, 97]
    ensures SplitLines(input) == [[98, 10], [97]]
  {
    assert LineLen(input) == 2;
    assert input[..2] == [98, 10] && input[2..] == [97];
    ReadsAsOneLine([97]);
  }

  lemma ReadsAsOneLine(d: seq<Byte>)
    requires d != [] && forall j :: 0 <= j < |d| - 1 ==> d[j] != Newline
    ensures SplitLines(d) == [d]
  {
    LineLenUnique(d, |d|);
    assert d[..|d|] == d && d[|d|..] == [];
  }

  lemma SortTwo(lines: seq<Line>)
    requires lines == [[98, 10], [97]]
    ensures SortLines(lines) == [[97], [98, 10]]
  {
    assert Cmp([98, 10], [97]) == Greater;
    assert lines[1..] == [[97]];
    assert SortLines([[97]]) == [[97]];
  }

  /** One complete line in front of the rest of the input is read first. */
  lemma ReadsLineFirst(d: seq<Byte>, l: Line)
    requires |l| == 2 && l[0] != Newline && l[1] == Newline && |d| >= 2 && d[..2] == l
    ensures SplitLines(d) == [l] + SplitLines(d[2..])
  {
    LineLenUnique(d, 2);
  }

  /**
   * A duplicate split across two chunks: `b a a c` with a chunk size of 2
   * spills `{b, a}` and `{a, c}`, and the output is still `a b c`, each once.
   */
  lemma ChunkBoundaryDuplicates()
    ensures var input: seq<Byte> := [98, 10, 97, 10, 97, 10, 99, 10];
      && Chunks(InputLines(input), Capacity(2)) == [[[98, 10], [97, 10]], [[97, 10], [99, 10]]]
      && Deduplicated(input) == [[97, 10], [98, 10], [99, 10]]
  {
    var input: seq<Byte> := [98, 10, 97, 10, 97, 10, 99, 10];
    ExampleLines(input);
    ExampleChunks([[98, 10], [97, 10], [97, 10], [99, 10]]);
    ExampleOutput(input);
  }

  lemma ExampleChunks(lines: seq<Line>)
    requires lines == [[98, 10], [97, 10], [97, 10], [99, 10]]
    ensures Chunks(lines, 2) == [[[98, 10], [97, 10]], [[97, 10], [99, 10]]]
  {
    var a, b, c: Line := [97, 10], [98, 10], [99, 10];
    ChunksOfFullGroup([b, a], [a, c], 2);
    assert [b, a] + [a, c] == lines;
  }

  lemma ExampleOutput(input: seq<Byte>)
    requires InputLines(input) == [[98, 10], [97, 10], [97, 10], [99, 10]]
    ensures Deduplicated(input) == [[97, 10], [98, 10], [99, 10]]
  {
    var a, b, c: Line := [97, 10], [98, 10], [99, 10];
    var out := [a, b, c];
    assert Lt(a, b) && Lt(b, c) && Lt(a, c);
    assert StrictlySorted(out);
    DeduplicatedUnique(input, out);
  }

  lemma ExampleLines(input: seq<Byte>)
    requires input == [98, 10, 97, 10, 97, 10, 99, 10]
    ensures InputLines(input) == [[98, 10], [97, 10], [97, 10], [99, 10]]
  {
    var a, b, c: Line := [97, 10], [98, 10], [99, 10];
    ReadsLineFirst(input, b);
    ReadsLineFirst(input[2..], a);
    assert input[2..][2..] == input[4..];
    ReadsLineFirst(input[4..], a);
    assert input[4..][2..] == input[6..];
    ReadsLineFirst(input[6..], c);
    assert input[6..][2..] == [];
    var lines := [b, a, a, c];
    assert SplitLines(input) == lines;
    assert AllComplete(lines);
    TerminateAllComplete(lines);
  }
}

/**
 * Phase 1, `split_into_chunks` and `write_sorted_chunk`: the input is read
 * line by line into a buffer, and each time the buffer holds `chunk_size`
 * lines it is sorted and spilled as one chunk file; a non-empty remainder
 * becomes the last chunk.
 */
module Chunker {
  import opened Lines
  import opened LineReader
  import opened Sorting

  /**
   * The number of lines a chunk reaches before it is flushed. The test
   * `buffer.len() >= chunk_size` runs right after a push, so a `chunk_size`
   * of 0 flushes every line on its own, as 1 would.
   */
  function Capacity(chunkSize: nat): nat {
    if chunkSize == 0 then 1 else chunkSize
  }

  /**
   * The groups of lines `split_into_chunks` flushes, in creation order:
   * groups of exactly `k` lines, then the remainder if it is not empty.
   */
  function Chunks(lines: seq<Line>, k: nat): (cs: seq<seq<Line>>)
    requires k >= 1
    decreases |lines|
  {
    if |lines| <= k then
      (if lines == [] then [] else [lines])
    else
      assert lines == lines[..k] + lines[k..];
      [lines[..k]] + Chunks(lines[k..], k)
  }

  /**
   * Concatenating the groups in creation order gives back the lines; every
   * group is non-empty and at most `k` long, and all but the last are full.
   */
  lemma {:induction false} ChunksShape(lines: seq<Line>, k: nat)
    requires k >= 1
    ensures Concat(Chunks(lines, k)) == lines
    ensures forall j :: 0 <= j < |Chunks(lines, k)| ==> 0 < |Chunks(lines, k)[j]| <= k
    ensures forall j :: 0 <= j < |Chunks(lines, k)| - 1 ==> |Chunks(lines, k)[j]| == k
    ensures Chunks(lines, k) == [] <==> lines == []
    decreases |lines|
  {
    if |lines| > k {
      ChunksShape(lines[k..], k);
      assert lines == lines[..k] + lines[k..];
    }
  }

  /** A full group in front is flushed on its own. */
  lemma ChunksOfFullGroup(b: seq<Line>, rest: seq<Line>, k: nat)
    requires k >= 1 && |b| == k
    ensures Chunks(b + rest, k) == [b] + Chunks(rest, k)
  {
    if rest != [] {
      assert (b + rest)[..k] == b && (b + rest)[k..] == rest;
    } else {
      assert b + rest == b;
    }
  }

  /**
   * The line as it is pushed into the buffer, given the delimiter it lacks
   * when it is the input's unterminated final line. The source pushes the
   * line as read; this is the correction described in README.md.
   */
  function Terminate(l: Line): (t: Line)
    ensures l != [] && OneLine(l) ==> Complete(t)
    ensures |l| <= |t| <= |l| + 1 && t[..|l|] == l
    ensures Complete(l) ==> t == l
  {
    if l != [] && l[|l| - 1] == Newline then l else l + [Newline]
  }

  /** Every line terminated. */
  function TerminateAll(ls: seq<Line>): (ts: seq<Line>)
    ensures |ts| == |ls|
  {
    if ls == [] then [] else [Terminate(ls[0])] + TerminateAll(ls[1..])
  }

  /** Each line of the result is the line at the same place, terminated. */
  lemma {:induction false} TerminateAllAt(ls: seq<Line>)
    ensures forall i :: 0 <= i < |ls| ==> TerminateAll(ls)[i] == Terminate(ls[i])
  {
    if ls != [] {
      TerminateAllAt(ls[1..]);
    }
  }

  /** Lines that are already complete are left as they are. */
  lemma TerminateAllComplete(ls: seq<Line>)
    requires AllComplete(ls)
    ensures TerminateAll(ls) == ls
  {
    TerminateAllAt(ls);
  }

  /** The buffer contents `split_into_chunks` sees over the whole input. */
  function InputLines(input: seq<Byte>): (ls: seq<Line>)
    ensures ls == [] <==> input == []
  {
    TerminateAll(SplitLines(input))
  }

  /** Every line pushed into the buffer ends with the delimiter and holds no other. */
  lemma InputLinesComplete(input: seq<Byte>)
    ensures AllComplete(InputLines(input))
  {
    SplitLinesWellFormed(input);
    TerminateAllAt(SplitLines(input));
  }

  /** An input that is empty or whose last byte is the delimiter: it has no unterminated final line. */
  ghost predicate Terminated(input: seq<Byte>) {
    input == [] || input[|input| - 1] == Newline
  }

  /**
   * On such an input pushing each line as read and pushing it terminated
   * are the same: the buffer sees exactly the lines `read_until` returns.
   */
  lemma InputLinesOfTerminated(input: seq<Byte>)
    requires Terminated(input)
    ensures InputLines(input) == SplitLines(input)
  {
    var ls := SplitLines(input);
    SplitLinesWellFormed(input);
    if ls != [] {
      var n := |ls| - 1;
      assert ls[..n] + [ls[n]] == ls;
      ConcatAppend(ls[..n], ls[n]);
      assert input == Concat(ls[..n]) + ls[n];
      assert ls[n][|ls[n]| - 1] == input[|input| - 1];
      forall i | 0 <= i < |ls|
        ensures Complete(ls[i])
      {
      }
    }
    TerminateAllComplete(ls);
  }

  /**
   * `write_sorted_chunk`: sorts the buffer, then drains it line by line into
   * a new chunk file. `buffer'` is the buffer afterwards. A chunk of
   * complete lines reads back from its file as exactly the sorted chunk.
   */
  method WriteSortedChunk(buffer: seq<Line>) returns (file: seq<Byte>, buffer': seq<Line>)
    ensures file == Concat(SortLines(buffer))
    ensures buffer' == []
    ensures AllComplete(buffer) ==> SplitLines(file) == SortLines(buffer)
  {
    var sorted := SortLines(buffer);
    file := [];
    buffer' := sorted;
    while buffer' != []
      invariant Concat(sorted) == file + Concat(buffer')
      decreases |buffer'|
    {
      file := file + buffer'[0];
      buffer' := buffer'[1..];
    }
    if AllComplete(buffer) {
      SortedChunkReadsBack(buffer);
    }
  }

  /** The file of a chunk of complete lines reads back as the sorted chunk. */
  lemma SortedChunkReadsBack(chunk: seq<Line>)
    requires AllComplete(chunk)
    ensures SplitLines(Concat(SortLines(chunk))) == SortLines(chunk)
  {
    var sorted := SortLines(chunk);
    forall i | 0 <= i < |sorted|
      ensures Complete(sorted[i])
    {
      assert sorted[i] in multiset(chunk);
    }
    CompleteIsWellFormed(sorted);
    SplitConcat(sorted);
  }

  /** Every group of complete lines holds complete lines only. */
  lemma {:induction false} ChunksComplete(lines: seq<Line>, k: nat)
    requires k >= 1 && AllComplete(lines)
    ensures forall j :: 0 <= j < |Chunks(lines, k)| ==> AllComplete(Chunks(lines, k)[j])
    decreases |lines|
  {
    if |lines| > k {
      var rest := lines[k..];
      assert forall i :: 0 <= i < |rest| ==> rest[i] == lines[i + k];
      ChunksComplete(rest, k);
      assert AllComplete(lines[..k]);
    }
  }

  /**
   * The chunk files as `split_into_chunks` writes them, pushing each line as
   * read: a final line without a delimiter goes into its chunk as it is.
   */
  ghost function AsWrittenChunkFiles(input: seq<Byte>, chunkSize: nat): (files: seq<seq<Byte>>)
    ensures Terminated(input) ==> |files| == |Chunks(InputLines(input), Capacity(chunkSize))|
  {
    var cs := Chunks(SplitLines(input), Capacity(chunkSize));
    assert Terminated(input) ==> cs == Chunks(InputLines(input), Capacity(chunkSize)) by {
      if Terminated(input) {
        InputLinesOfTerminated(input);
      }
    }
    seq(|cs|, j requires 0 <= j < |cs| => Concat(SortLines(cs[j])))
  }

  /** Each file holds its group sorted and reads back as that sorted group. */
  ghost predicate Spilled(files: seq<seq<Byte>>, chunks: seq<seq<Line>>) {
    && |files| == |chunks|
    && forall j :: 0 <= j < |files| ==>
         files[j] == Concat(SortLines(chunks[j])) && SplitLines(files[j]) == SortLines(chunks[j])
  }

  lemma SpilledAppend(files: seq<seq<Byte>>, chunks: seq<seq<Line>>, file: seq<Byte>, chunk: seq<Line>)
    requires Spilled(files, chunks)
    requires file == Concat(SortLines(chunk)) && SplitLines(file) == SortLines(chunk)
    ensures Spilled(files + [file], chunks + [chunk])
  {
    var fs, cs := files + [file], chunks + [chunk];
    forall j | 0 <= j < |fs|
      ensures fs[j] == Concat(SortLines(cs[j])) && SplitLines(fs[j]) == SortLines(cs[j])
    {
      if j < |files| {
        assert fs[j] == files[j] && cs[j] == chunks[j];
      } else {
        assert fs[j] == file && cs[j] == chunk;
      }
    }
  }

  /** Flushing a full buffer closes one more group. */
  lemma FlushFull(all: seq<Line>, chunks: seq<seq<Line>>, buffer: seq<Line>, rest: seq<Line>, k: nat)
    requires k >= 1 && |buffer| == k
    requires Chunks(all, k) == chunks + Chunks(buffer + rest, k)
    ensures Chunks(all, k) == (chunks + [buffer]) + Chunks([] + rest, k)
  {
    ChunksOfFullGroup(buffer, rest, k);
    assert [] + rest == rest;
  }

  /** At end of input what is left in the buffer is the last group, if any. */
  lemma FlushRemainder(input: seq<Byte>, pos: nat, all: seq<Line>, chunks: seq<seq<Line>>, buffer: seq<Line>, k: nat)
    requires pos <= |input| && LineLen(input[pos..]) == 0
    requires k >= 1 && |buffer| < k
    requires Chunks(all, k) == chunks + Chunks(buffer + InputLines(input[pos..]), k)
    ensures Chunks(all, k) == if buffer == [] then chunks else chunks + [buffer]
  {
    assert InputLines(input[pos..]) == [];
    assert buffer + [] == buffer;
  }

  /** Reading one more line moves its terminated form from the unread input to the buffer. */
  lemma InputLinesStep(input: seq<Byte>, pos: nat, next: nat, line: Line)
    requires pos < next <= |input|
    requires next == pos + LineLen(input[pos..]) && line == input[pos..next]
    ensures line != [] && OneLine(line)
    ensures InputLines(input[pos..]) == [Terminate(line)] + InputLines(input[next..])
  {
    SplitLinesNext(input, pos, next);
    SplitLinesWellFormed(input[pos..]);
    var ls, rest := SplitLines(input[pos..]), SplitLines(input[next..]);
    assert ls[0] == line && ls[1..] == rest;
    assert TerminateAll(ls) == [Terminate(line)] + TerminateAll(rest);
  }

  /** Pushing the line just read keeps the buffer complete and the groups still to come unchanged. */
  lemma PushStep(input: seq<Byte>, pos: nat, next: nat, line: Line,
                 all: seq<Line>, chunks: seq<seq<Line>>, buffer: seq<Line>, k: nat)
    requires pos < next <= |input|
    requires next == pos + LineLen(input[pos..]) && line == input[pos..next]
    requires k >= 1 && AllComplete(buffer)
    requires Chunks(all, k) == chunks + Chunks(buffer + InputLines(input[pos..]), k)
    ensures AllComplete(buffer + [Terminate(line)])
    ensures Chunks(all, k) == chunks + Chunks((buffer + [Terminate(line)]) + InputLines(input[next..]), k)
  {
    InputLinesStep(input, pos, next, line);
    var t, rest := Terminate(line), InputLines(input[next..]);
    assert (buffer + [t]) + rest == buffer + ([t] + rest);
    AllCompleteAppend(buffer, t);
  }

  /** On an input without an unterminated final line, the files spilled are the ones the source writes. */
  lemma SpilledAsWritten(input: seq<Byte>, chunkSize: nat, files: seq<seq<Byte>>)
    requires Terminated(input)
    requires |files| == |Chunks(InputLines(input), Capacity(chunkSize))|
    requires forall j :: 0 <= j < |files| ==> files[j] == Concat(SortLines(Chunks(InputLines(input), Capacity(chunkSize))[j]))
    ensures files == AsWrittenChunkFiles(input, chunkSize)
  {
    InputLinesOfTerminated(input);
  }

  /** What the spilled files are once every group is written. */
  lemma SplitResult(input: seq<Byte>, chunkSize: nat, files: seq<seq<Byte>>, chunks: seq<seq<Line>>)
    requires Spilled(files, chunks)
    requires chunks == Chunks(InputLines(input), Capacity(chunkSize))
    ensures |files| == |chunks|
    ensures forall j :: 0 <= j < |files| ==> files[j] == Concat(SortLines(chunks[j]))
    ensures forall j :: 0 <= j < |files| ==> SplitLines(files[j]) == SortLines(chunks[j])
    ensures files == [] <==> input == []
    ensures Terminated(input) ==> files == AsWrittenChunkFiles(input, chunkSize)
  {
    ChunksShape(InputLines(input), Capacity(chunkSize));
    if Terminated(input) {
      SpilledAsWritten(input, chunkSize, files);
    }
  }

  /**
   * `split_into_chunks`: the chunk files in creation order, and the groups
   * of lines they were made from. Each file holds its group sorted, and reads
   * back as that sorted group; empty input gives no chunk file at all.
   */
  method SplitIntoChunks(input: seq<Byte>, chunkSize: nat) returns (files: seq<seq<Byte>>, ghost chunks: seq<seq<Line>>)
    ensures chunks == Chunks(InputLines(input), Capacity(chunkSize))
    ensures |files| == |chunks|
    ensures forall j :: 0 <= j < |files| ==> files[j] == Concat(SortLines(chunks[j]))
    ensures forall j :: 0 <= j < |files| ==> SplitLines(files[j]) == SortLines(chunks[j])
    ensures files == [] <==> input == []
    ensures Terminated(input) ==> files == AsWrittenChunkFiles(input, chunkSize)
  {
    ghost var k := Capacity(chunkSize);
    ghost var all := InputLines(input);
    var buffer: seq<Line> := [];
    var pos := 0;
    files, chunks := [], [];
    assert input[pos..] == input;
    assert buffer + InputLines(input[pos..]) == all;
    assert chunks + Chunks(all, k) == Chunks(all, k);
    while true
      invariant pos <= |input|
      invariant |buffer| < k
      invariant AllComplete(buffer)
      invariant Spilled(files, chunks)
      invariant Chunks(all, k) == chunks + Chunks(buffer + InputLines(input[pos..]), k)
      decreases |input| - pos
    {
      var line, next := ReadUntil(input, pos);
      if next == pos {
        break;
      }
      ghost var rest := InputLines(input[next..]);
      PushStep(input, pos, next, line, all, chunks, buffer, k);
      buffer := buffer + [Terminate(line)];
      pos := next;
      if |buffer| >= chunkSize {
        var file, drained := WriteSortedChunk(buffer);
        FlushFull(all, chunks, buffer, rest, k);
        SpilledAppend(files, chunks, file, buffer);
        files := files + [file];
        chunks := chunks + [buffer];
        buffer := drained;
      }
    }
    FlushRemainder(input, pos, all, chunks, buffer, k);
    if |buffer| > 0 {
      var file, drained := WriteSortedChunk(buffer);
      SpilledAppend(files, chunks, file, buffer);
      files := files + [file];
      chunks := chunks + [buffer];
      buffer := drained;
    }
    SplitResult(input, chunkSize, files, chunks);
  }
}

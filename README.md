# A verified model of a deduplicating external sort

This project is a Dafny model of the core of `src/main.rs`, a command-line tool that sorts a
large file of lines and removes duplicate lines. The input may not fit in memory, so the tool
works in two phases:

1. `split_into_chunks` reads the input line by line with `read_until(b'\n', ..)`. The lines are
   raw bytes and keep their delimiter. They go into a buffer. When the buffer holds `chunk_size`
   lines, `write_sorted_chunk` sorts it and drains it into a new chunk file. A non-empty remainder
   becomes the last chunk. A `chunk_size` of 0 is accepted and flushes after every line, as 1
   does (`Chunker.Capacity`).
2. `merge_chunks` opens one reader per chunk file and puts each reader's first line into a
   `BinaryHeap` of `HeapItem { line, index }`. `HeapItem`'s `Ord` is the reverse of byte order,
   so the max-heap yields the smallest line first. The loop pops the heap and writes the line
   unless it equals `last_written`. The reader the line came from then reads its next line into
   the heap.

The model is organised as follows:

- `Lines`: bytes, lines and `Vec<u8>::cmp`.
- `LineReader`: `read_until` as a loop, and the lines a byte stream reads as.
- `Sorting`: the sort, stated as a sorted permutation.
- `Chunker`: phase 1.
- `Heap`: `HeapItem`, its comparisons, and a `MaxHeap` class standing for `BinaryHeap`.
- `Merge`: phase 2.
- `Pipeline`: `main`, the whole-tool properties and worked examples.

Files are byte sequences. A chunk file is the concatenation of its sorted lines, and the merge
reads it back with the same `read_until` model.

An input whose last line has no `\n` makes the source join that line to the next line written
whenever some input line is greater than it (see Findings). When it is the greatest line, the source
writes it last, still without `\n`, and nothing is joined. The model gives that line its `\n` as it is read into the buffer (`Chunker.Terminate`), so
"the input's lines" below means the lines read, each ending with `\n`. On every input that is
empty or ends with `\n` this changes nothing. There the chunk files of the model are exactly the
ones the source writes (`Chunker.SplitIntoChunks`, `Pipeline.AsWrittenAgrees`), so the results hold
for the source itself.

The main results:

- Chunks concatenate, in creation order, to the lines the buffer receives. Each chunk is non-empty
  and holds at most `chunk_size` lines.
- Each chunk file reads back as its sorted chunk.
- The heap never holds more than one entry per chunk.
- Every line of every chunk is popped exactly once. The loop stops exactly when every reader is
  exhausted.
- On sorted chunks the pops are the sorted merge, and the written lines are strictly increasing.
- Overall, the output lines are exactly the distinct input lines, each ending with `\n`, each
  once and in byte order. Running the tool on its own output gives the same output.

## Model

| member | source | states |
|---|---|---|
| Lines.Cmp | src/main.rs:155 | `Vec<u8>::cmp` is `Equal` exactly on equal lines, and a proper prefix is smaller than the line it starts |
| Lines.CmpReverse | src/main.rs:155 | swapping the operands of the line comparison reverses the result |
| Lines.LeTotal | src/main.rs:82 | any two lines are comparable, and when one is not at most the other it is strictly greater |
| Lines.LeAntisymmetric | src/main.rs:82 | two lines each at most the other are equal |
| Lines.CmpTransitive | src/main.rs:82 | the line order is transitive, for every mix of strict and non-strict steps |
| LineReader.LineLen | src/main.rs:60 | one `read_until` consumes everything up to and including the first `\n`, or to the end; it consumes nothing only at end of input |
| LineReader.ReadUntil | src/main.rs:128 | the loop reading from position `pos` stops after the first `\n` or at the end; it returns exactly those bytes and the position after them |
| LineReader.SplitLines | src/main.rs:60-62 | the lines the reading loop sees, concatenated, give the input back; there are none only for empty input |
| LineReader.SplitLinesWellFormed | src/main.rs:60-62 | every line read is non-empty and holds a `\n` only at its end; all but the last end with one |
| LineReader.SplitConcat | src/main.rs:87-89 | lines of that shape, written out one after the other and read back, give the same lines |
| Sorting.SortLines | src/main.rs:82 | the buffer after sorting is sorted and a permutation of the buffer before |
| Sorting.Insert | src/main.rs:82 | inserting into a sorted sequence keeps it sorted and adds exactly that line |
| Sorting.SortedUnique | src/main.rs:82 | two sorted permutations of the same lines are equal, so the unstable parallel sort's result is determined |
| Sorting.StrictlySortedDistinct | src/main.rs:122-125 | a strictly increasing sequence has as many lines as distinct lines |
| Sorting.StrictlySortedUnique | src/main.rs:122-125 | two strictly increasing sequences of the same lines are equal |
| Chunker.ChunksShape | src/main.rs:60-74 | the chunks concatenate in creation order to the lines read; each is non-empty with at most `chunk_size` lines, all but the last exactly `chunk_size`; no input gives no chunk |
| Chunker.TerminateAllAt | src/main.rs:61 | each line the buffer receives is the line read at the same place, terminated |
| Chunker.InputLinesOfTerminated | src/main.rs:60-61 | on an input that is empty or ends with `\n`, the buffer receives exactly the lines `read_until` returns, as the source pushes them |
| Chunker.PushStep | src/main.rs:60-61 | pushing the line just read keeps the buffer complete and leaves the groups still to be flushed unchanged |
| Chunker.ChunksComplete | src/main.rs:65-74 | groups made of complete lines hold complete lines only |
| Chunker.SortedChunkReadsBack | src/main.rs:87-89 | a chunk of complete lines, sorted and written out, reads back as exactly the sorted chunk |
| Chunker.AsWrittenChunkFiles | src/main.rs:49-93 | the chunk files the source writes, each line pushed as read; on an input that is empty or ends with `\n` there is one per group of the model |
| Chunker.SpilledAsWritten | src/main.rs:49-93 | on an input that is empty or ends with `\n`, the sorted groups written out are exactly the chunk files the source writes |
| Chunker.Terminate | src/main.rs:61 | the line pushed is the line read, given one `\n` at its end if it lacks one and nothing else; it is then a complete line, and a complete line is left as it is |
| Chunker.InputLinesComplete | src/main.rs:60-61 | every line pushed into the buffer ends with its only `\n` |
| Chunker.WriteSortedChunk | src/main.rs:81-93 | the chunk file holds the sorted buffer, line after line; the buffer is left empty; a buffer of complete lines reads back from its file as exactly the sorted buffer |
| Chunker.SplitIntoChunks | src/main.rs:49-78 | the chunk files are made from the chunks of `ChunksShape`, in creation order; each file holds its chunk sorted and reads back as it; empty input gives no chunk file; on an input that is empty or ends with `\n` the files are exactly those the source writes |
| Heap.HeapCmp | src/main.rs:153-157 | `HeapItem::cmp` is the line order reversed and ignores the index: `self` is not less than `other` exactly when `self.line` is at most `other.line` |
| Heap.HeapEq | src/main.rs:163-167 | `HeapItem::eq` holds exactly when `cmp` says `Equal`: lines equal, index ignored |
| Heap.MaxHasLeastLine | src/main.rs:121 | the item the max-heap yields carries a line no larger than any other line in the heap |
| Heap.MaxHeap.constructor | src/main.rs:102 | `BinaryHeap::new()` is empty |
| Heap.MaxHeap.Push | src/main.rs:129-132 | `push` adds exactly the item |
| Heap.MaxHeap.Pop | src/main.rs:121 | `pop` gives `None` exactly on an empty heap; otherwise it gives a greatest item under `HeapItem`'s `Ord` and removes exactly that item |
| Merge.Dedup | src/main.rs:116-125 | writing each popped line unless it equals `last_written` keeps every distinct line, ends with the last line popped, and never writes a line twice in a row |
| Merge.DedupOfSorted | src/main.rs:121-125 | on sorted pops, comparing with the last line written alone makes the output strictly increasing |
| Merge.DedupOfDistinct | src/main.rs:122-125 | lines without a repeat in a row pass through unchanged |
| Merge.FrontierItemsSize | src/main.rs:105-113 | with one entry per reader that holds a line, the heap never holds more entries than there are readers |
| Merge.FrontierItemsCount | src/main.rs:105-113 | reader `i`'s entry is in the heap exactly once while that reader holds a line, and otherwise not at all |
| Merge.FrontierItemsUpdate | src/main.rs:128-134 | changing what reader `i` holds swaps that reader's entry and leaves every other entry alone |
| Merge.FrontierItemsMember | src/main.rs:128-134 | every heap entry carries the line its reader holds |
| Merge.HeapEmptyIffExhausted | src/main.rs:121 | the heap is empty exactly when every reader is exhausted |
| Merge.HeapTopIsLeast | src/main.rs:121 | the popped line is no larger than any line a reader holds |
| Merge.ReaderAdvance | src/main.rs:128-134 | the reader whose line was popped moves on to its next line, or is exhausted when `read_until` returns 0 |
| Merge.OpenReaders | src/main.rs:105-113 | after priming, each reader holds its file's first line or is exhausted, and the heap holds exactly the held lines, tagged with their reader's index, so at most one entry per chunk |
| Merge.MergeOnce | src/main.rs:121-134 | one pass of the loop keeps both loop invariants, among them that the heap holds exactly one entry per reader holding a line and so at most one per chunk; it stops, changing nothing, exactly when every reader is exhausted, and then every line of every chunk has been popped; otherwise it pops exactly one more line, a line some reader holds and no larger than any line a reader holds, writes it exactly when it differs from `last_written`, and leaves exactly one pending line fewer |
| Merge.MergeChunks | src/main.rs:96-145 | every line of every chunk is popped exactly once; the output is the pops without repeats, holding exactly the chunks' distinct lines; on sorted chunks the pops are the sorted merge and the output is strictly increasing |
| Pipeline.Run | src/main.rs:35-46 | for every chunk size, the output reads back as the deduplicated input: strictly increasing, exactly the input's lines, as many as there are distinct ones; empty input gives empty output |
| Pipeline.DeduplicatedSpec | src/main.rs:41-43 | the intended output is strictly increasing, holds exactly the input's lines, one per distinct line, each ending with `\n` |
| Pipeline.DeduplicatedUnique | src/main.rs:41-43 | any strictly increasing sequence of exactly the input's lines is the intended output |
| Pipeline.Idempotent | src/main.rs:41-43 | deduplicating the output again gives the same output |
| Pipeline.InputLinesMembers | src/main.rs:60-61 | a line of the buffer is a line read, given its delimiter if it lacks one, and every line read appears that way |
| Pipeline.AsWrittenAgrees | src/main.rs:35-46 | on an input that is empty or ends with `\n`, the chunk files the source writes read back sorted, so its merge writes the lines read, sorted, with repeats dropped: the output of `Pipeline.Run` |
| Pipeline.UnterminatedLineSpliced | src/main.rs:60-61 | as written, input `b\na` with a chunk size of 2 gives one chunk file `ab\n`, which reads back as the single line `ab\n`, not a line of the input |
| Pipeline.UnterminatedGreatest | src/main.rs:60-61 | as written, `a\nb` with a chunk size of 2 reads back from its chunk file as `a\n` and `b`, nothing joined; with the correction the output is `a\n` and `b\n` |
| Pipeline.UnterminatedMerged | src/main.rs:61 | with the correction, `a\na` gives the buffer `a\n` twice and the output `a\n` once |
| Pipeline.ChunkBoundaryDuplicates | src/main.rs:41-43 | `b a a c` with a chunk size of 2 spills `{b, a}` and `{a, c}`, and the output is `a b c`, each once |

## Left out

- Command-line parsing (`Args`) and `create_dir_all` of the chunk directory: input, output and
  `chunk_size` are parameters of `Pipeline.Run`.
- Progress bars: they have no effect on the data.
- File handling:
  - Chunk files are byte sequences returned by phase 1 and read by phase 2.
  - `uuid` naming, `File::create`/`open`, `BufWriter` flushing and the final `remove_file` of each
    chunk file are not modelled.
- Every `?` and `unwrap()` error path, that is I/O errors, is not modelled: reads and writes
  always succeed in the model.
- `par_sort_unstable_by` runs in parallel in the source. It is modelled as a sequential sort with
  the same result: any sorted permutation is the same sequence (`Sorting.SortedUnique`).
- The internal layout of `BinaryHeap`:
  - `Heap.MaxHeap` keeps its items in a sequence, and its contract says only what `push` and `pop`
    promise.
  - Which of several equal greatest items `pop` returns is left open. It does not matter, because
    equal items carry equal lines.
- `partial_cmp` is always `Some` of `cmp`. It is folded into `Heap.HeapCmp`.
- The per-reader `buffers` scratch vectors: each `read_until` returns its line directly.
- `usize` widths (`chunk_size`, `index`) are unbounded naturals. No realistic input reaches their
  limits.
- Chunker.Terminate: the source pushes each line as read (src/main.rs:61). The model gives an
  unterminated last line its `\n` instead (see Findings). That line then becomes the same line as
  the same text ending in `\n`, and the two are deduplicated into one: input `a\na` gives the single
  output line `a\n` (`Pipeline.UnterminatedMerged`). When the unterminated line is the greatest
  line, the source writes it last without `\n` and the model adds one: for `a\nb` the source writes
  `a\nb` and the model `a\nb\n` (`Pipeline.UnterminatedGreatest`). The output lines are therefore the input lines, each terminated, and not
  always the input lines byte for byte. On inputs that are empty or end with `\n` nothing changes
  (`Pipeline.AsWrittenAgrees`).
- Merge.MergeChunks: the ordering and strictly-increasing guarantees are stated only for chunk
  files that read back sorted, which is what phase 1 produces (`Pipeline.Run` combines the two).

## Findings

| source | as written | input that shows it | evidently intended | confidence | as-written member | corrected member |
|---|---|---|---|---|---|---|
| src/main.rs:60-61 | the line `read_until` returns is pushed into the buffer as read, so an unterminated last input line enters a chunk without `\n`; sorted into the middle of the chunk, it runs into the next line when the chunk file is read back | bytes `b\na` with `chunk_size` 2: chunk file `ab\n`, so the output is `ab\n` | no two input lines are ever joined into one: every output line is an input line ending with `\n`, the unterminated last one counted as its text followed by `\n` | high, not executed | Pipeline.UnterminatedLineSpliced | Chunker.Terminate |

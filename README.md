# fintersect: external sort with deduplication, modelled in Dafny

The program reads the file `1.bin`, a flat sequence of little-endian
unsigned 32-bit keys. It writes `1_distinct_sorted.bin`, which holds every
key of the input once, in ascending order. The input may be larger than
memory, so the work happens in two stages.

1. **Chunk loop** (`main`, `read_chunk`, `write_chunk`). Up to `CHUNK_SIZE`
   keys at a time are read into a buffer. The buffer is sorted and written as
   the run file `1_<n>.bin`, where `n` counts the runs. While writing, each
   key equal to the one before it is dropped.
2. **Merge** (`merge_distinct`). Every run gets a peekable reader. In each
   round, every reader first skips keys not above the last key written and
   then peeks. The least head found is appended to the output. The merge
   stops when no reader has a head left.

The model follows `src/main.rs` as it is written.

- **Files.** The working directory is a map from file name to bytes.
- **Readers.** `Integers` and `Peekable` are classes whose fields change in
  place: a position in a byte snapshot, the four-byte scratch buffer, and the
  peeked slot. Each carries a ghost field with the keys it will still yield.
- **Sorting.** The chunk sort is a pure function, specified as sorted and a
  permutation.
- **Loops.** The loops of `read_chunk`, `write_chunk`, the skip closure, the
  `filter_map`/`min` guard, the merge loop and the chunk loop of `main` are
  methods with loop invariants. Each is proved against functions on
  sequences: `Decode`/`Encode` (the byte format) and `Collapse` (what
  `write_chunk` keeps of a buffer).

The main results:

- **Output shape.** For any input, the output is a whole number of words,
  strictly increasing, and holds exactly the keys of the input.
- **Independence from chunking.** Two outputs with the same keys are the same
  bytes. So the result does not depend on the chunk size, for any positive
  chunk size, and sorting an output again reproduces it.
- **Run files.** Run `i` is stored as `1_i.bin`. It holds the `i`-th slice
  of `chunkSize` keys of the input (the last slice may be shorter), sorted
  and with repeated keys written once. There are as many runs as such
  slices.
- **Merging unsorted runs.** For unsorted runs, the merge still produces a
  strictly increasing subset of their keys. The sorted case gives equality.
- **Other files.** Only the runs `1_0.bin` to `1_<k-1>.bin` written by this
  invocation and the output change or appear. Every other file is left
  untouched, including run files left over from an earlier invocation with
  more runs.

`src/main.rs` has no two-way intersection and does not delete the run
files. It names runs `1_<n>.bin`, not after the input file. The model
follows the code.

## Model

| member | source | states |
|---|---|---|
| LittleEndian.FromLeBytes | src/main.rs:132 | the first byte is the key's least significant byte and the last byte its most significant |
| LittleEndian.ToLeBytes | src/main.rs:60 | four bytes from which `from_le_bytes` recovers the key |
| LittleEndian.ToFromLeBytes | src/main.rs:128-133 | encoding a decoded word reproduces its four bytes: the byte format is a bijection |
| LittleEndian.Decode | src/main.rs:128-133 | a reader yields one key per complete group of four bytes |
| LittleEndian.Encode | src/main.rs:54-67 | a writer leaves exactly four bytes per key written |
| LittleEndian.DecodeAt | src/main.rs:128-133 | key `k` of a file comes from bytes `4k .. 4k+4`, least significant first |
| LittleEndian.DecodeEncode | src/main.rs:54-67 | reading back the keys written gives the same keys in the same order |
| LittleEndian.EncodeDecode | src/main.rs:128-133 | rewriting the keys read reproduces the file up to its last complete word |
| LittleEndian.DecodeDropsFragment | src/main.rs:128-133 | a trailing fragment of one to three bytes is ignored, not an error |
| LittleEndian.DecodeInjective | src/main.rs:128-133 | a file whose length is a multiple of four is determined by its keys |
| LittleEndian.EncodeSnoc | src/main.rs:103 | writing one more key appends exactly its four little-endian bytes |
| IntegerStream.Integers.constructor | src/main.rs:117-122 | a new reader is at the start of the file and will yield all of its keys |
| IntegerStream.Integers.Next | src/main.rs:128-133 | yields the next key and removes it; at the end (including after a short read) yields `None` and stays exhausted |
| IntegerStream.Peekable.constructor | src/main.rs:73 | a new cursor will yield exactly what its reader would |
| IntegerStream.Peekable.Peek | src/main.rs:97-98 | returns the next key without consuming anything, or `None` at the end |
| IntegerStream.Peekable.Next | src/main.rs:93 | consumes the next key (the peeked one if any); `None` at the end |
| Ordering.SortUnstable | src/main.rs:26 | the sorted buffer is in ascending order and a permutation of the buffer |
| Ordering.SortKeepsElems | src/main.rs:26 | sorting keeps the set of keys |
| Ordering.StrictlyIncreasingUnique | src/main.rs:78-105 | two strictly increasing sequences with the same keys are equal |
| Chunks.ReadChunk | src/main.rs:45-52 | appends the next `min(chunkSize, remaining)` keys of the stream to the buffer, removes them from the stream, loses none, returns the new length; for an empty buffer and positive chunk size the length is 0 exactly when the stream is exhausted |
| Chunks.WriteChunk | src/main.rs:54-67 | the named file is replaced by the encoding of `Collapse(buffer)` and every other file is unchanged |
| Chunks.ChunkedAt | src/main.rs:45-52 | chunk `i` is the keys from position `i * chunkSize` up to the smaller of `(i + 1) * chunkSize` and the stream's length |
| Chunks.ChunkedCount | src/main.rs:22 | for a positive chunk size there are as many chunks as the stream's length divided by `chunkSize`, rounded up: none for an empty stream, otherwise one fewer would not cover the stream and that many do |
| Chunks.Collapse | src/main.rs:58-64 | the keys written are no more than the buffer's; a non-empty buffer writes its first and its last key |
| Chunks.CollapseStep | src/main.rs:59-63 | `Collapse`'s defining step read on the buffer prefix `buffer[..i + 1]`: one more key is written exactly when it is the first or differs from the key before it, the step the writer's loop invariant needs |
| Chunks.CollapseKeepsElems | src/main.rs:58-64 | the written keys are exactly the buffer's keys |
| Chunks.CollapseIsSubsequence | src/main.rs:58-64 | the written keys keep the buffer's order |
| Chunks.CollapseNoAdjacentDuplicates | src/main.rs:58-64 | no two neighbouring written keys are equal, whatever the buffer |
| Chunks.CollapseSortedStrictlyIncreasing | src/main.rs:26-29 | a sorted buffer is written strictly increasing |
| Chunks.WrittenRun | src/main.rs:26-29 | a run file from a sorted buffer is whole words, reads back strictly increasing, and holds exactly the buffer's keys |
| Merge.SkipWritten | src/main.rs:81-98 | advances past exactly the leading keys not above `last_write` (none when nothing was written), and returns the cursor's next key, which is above `last_write` |
| Merge.SkipWrittenAt | src/main.rs:80-98 | the skip closure on cursor `i` moves only that cursor, keeps every skipped key at most `last_write`, and returns its head |
| Merge.Open | src/main.rs:73 | a fresh cursor at the start of the file's keys |
| Merge.OpenAll | src/main.rs:71-74 | one fresh cursor per input, pairwise distinct, each at the start of its run |
| Merge.LeastPending | src/main.rs:78-101 | the guard yields `None` exactly when every cursor is exhausted after skipping; otherwise it yields a head above `last_write` that is no larger than any other head |
| Merge.WriteLeast | src/main.rs:100-104 | writing the least pending key keeps the output strictly increasing, drawn from the runs, and ending in `last_write` |
| Merge.CoverLeast | src/main.rs:100-104 | for sorted runs, every key up to the new `last_write` is in the output |
| Merge.AllWritten | src/main.rs:78-105 | once all cursors are exhausted, sorted runs have had every key written |
| Merge.WriteDistinct | src/main.rs:78-105 | the bytes written are whole words, strictly increasing and drawn from the runs; for sorted runs they hold every key of the runs |
| Merge.MergeDistinct | src/main.rs:69-108 | only the output file changes; it is truncated before the inputs are opened; it ends strictly increasing and drawn from the inputs, and for sorted inputs it holds exactly their keys |
| Driver.DecimalDigits | src/main.rs:23 | `format!` of a count gives decimal digits without a leading zero |
| Driver.ParseDecimalDigits | src/main.rs:23 | the digits read back as the count |
| Driver.RunName | src/main.rs:23 | every run name is `1_`, decimal digits, `.bin`, with the run's index as the digits |
| Driver.RunNameInjective | src/main.rs:23 | different runs get different file names |
| Driver.ReservedNames | src/main.rs:18-38 | neither `1.bin` nor `1_distinct_sorted.bin` is a run name, and they differ |
| Driver.AddRun | src/main.rs:22-33 | sorting a chunk and writing it as the next run keeps every run sorted, adds exactly the chunk's keys to the runs, stores the chunk sorted and collapsed under the next run name, and touches no file other than the runs written |
| Driver.WriteOneMore | src/main.rs:29-31 | writing the next run and counting it among the runs written changes no file outside the runs written |
| Driver.TakeChunk | src/main.rs:22 | reading the next chunk loses no key, and the chunk is the stream's next chunk |
| Driver.NextRun | src/main.rs:22-33 | one round of the chunk loop keeps the loop invariant: the keys read so far came in the stream's first chunks, and run `i` holds chunk `i` |
| Driver.FinishRuns | src/main.rs:22 | when the loop stops, the runs hold all of the stream's chunks and all of its keys |
| Driver.WriteRuns | src/main.rs:18-33 | after the chunk loop the stream is used up (for a positive chunk size); run `i` is stored as `1_i.bin` and holds chunk `i` of the stream, sorted and collapsed; every run is sorted; the runs hold exactly the stream's keys (none for chunk size 0); no file other than the runs written was changed or created |
| Driver.RunIsSlice | src/main.rs:22-33 | run `i` holds the keys from position `i * chunkSize` up to the smaller of `(i + 1) * chunkSize` and the stream's length, sorted and collapsed |
| Driver.RunCount | src/main.rs:22-33 | there are as many runs as `chunkSize`-slices it takes to cover the stream, and none for an empty stream or chunk size 0 |
| Driver.MergedRuns | src/main.rs:22-38 | the chunk loop followed by the merge leaves the output, the run files and the other files as `ExternalSortDistinct` promises |
| Driver.MergedOutput | src/main.rs:22-38 | the merged output holds exactly the keys of `1.bin` (none for chunk size 0) |
| Driver.MergedRunFiles | src/main.rs:29-38 | the merge leaves every run file as the chunk loop wrote it |
| Driver.MergedFrame | src/main.rs:18-38 | every file other than the runs written this time and the output keeps its contents, and no other file appears |
| Driver.ExternalSortDistinct | src/main.rs:14-43 | `NotFound` when `1.bin` is missing. Otherwise: the output is whole words, strictly increasing, and holds exactly the keys of `1.bin` (none for chunk size 0); run `i` holds chunk `i` of the input, sorted and collapsed; only the runs written this time and the output change or appear, so run files left from an earlier invocation beyond those are kept |
| Driver.OutputDeterminedByKeys | src/main.rs:14-43 | two outputs with the same keys are the same bytes: the output does not depend on the chunk size, for any positive chunk size, and sorting an output again reproduces it |

## Left out

- Logging (`env_logger`, `info!`): it has no effect on files.
- I/O failures other than a missing `1.bin` are not modelled. Creating, reading or writing a file always succeeds, so the `?` at `src/main.rs:29`, `:38`, `:55`, `:60`, `:70` and `:103` never fires.
- The `unwrap` on opening a run file (`src/main.rs:73`) is a precondition of `Merge.MergeDistinct`. In `main` every run file was just written, so the precondition always holds.
- `par_sort_unstable` runs in parallel. The model replaces it with a sequential insertion sort. Only its result is observable: sorted and a permutation. The order of equal keys does not matter.
- `CHUNK_SIZE` is a parameter of `Driver.ExternalSortDistinct`, which also allows 0. The source fixes it at 4·2³⁰. The `Vec` capacity reservation (`src/main.rs:19`) and `drop(buffer)` (`:35`) concern memory only.
- `BufReader` and `BufWriter` buffering is not modelled. Reads see the file as it was when opened, and writes land in the file at once.
- Files are a snapshot map. Concurrent changes by other processes, permissions and directories are not modelled.
- Run files are not deleted after the merge, because the code does not delete them.

/** `main`: the external sort. The input file is read chunk by chunk; each
    chunk is sorted and written to its own run file with duplicates
    collapsed, and the runs are then merged into one ascending,
    duplicate-free output file. */
module Driver {
  import opened Types
  import opened LittleEndian
  import opened Ordering
  import opened IntegerStream
  import opened Chunks
  import opened Merge

  const InputName: string := "1.bin"
  const OutputName: string := "1_distinct_sorted.bin"

  predicate IsDigit(c: char) {
    '0' <= c <= '9'
  }

  function DigitChar(d: nat): (c: char)
    requires d < 10
    ensures IsDigit(c) && c as int - '0' as int == d
  {
    ('0' as int + d) as char
  }

  /** `format!("{}", n)` for an unsigned integer: its decimal digits, most
      significant first, without leading zeros. */
  function DecimalDigits(n: nat): (s: string)
    ensures |s| >= 1 && forall i :: 0 <= i < |s| ==> IsDigit(s[i])
    ensures |s| > 1 ==> s[0] != '0'
    ensures n < 10 <==> |s| == 1
    decreases n
  {
    if n < 10 then [DigitChar(n)] else DecimalDigits(n / 10) + [DigitChar(n % 10)]
  }

  function DigitValue(c: char): nat
    requires IsDigit(c)
  {
    c as int - '0' as int
  }

  /** The number a string of decimal digits stands for. */
  function ParseDecimal(s: string): nat
    requires forall i :: 0 <= i < |s| ==> IsDigit(s[i])
  {
    if s == [] then 0 else 10 * ParseDecimal(s[..|s| - 1]) + DigitValue(s[|s| - 1])
  }

  /** Formatting loses nothing: the digits read back as the number. */
  lemma {:induction false} ParseDecimalDigits(n: nat)
    ensures ParseDecimal(DecimalDigits(n)) == n
    decreases n
  {
    if n >= 10 {
      var s := DecimalDigits(n);
      assert s[..|s| - 1] == DecimalDigits(n / 10);
      ParseDecimalDigits(n / 10);
    }
  }

  /** The shape of a run file name: `1_`, decimal digits, `.bin`. */
  predicate IsRunName(name: string) {
    && |name| >= 7
    && name[..2] == "1_"
    && name[|name| - 4..] == ".bin"
    && forall i :: 2 <= i < |name| - 4 ==> IsDigit(name[i])
  }

  /** Wrapping a non-empty string of digits in `1_` and `.bin` gives a run
      name, with the digits in the middle. */
  lemma RunShape(digits: string)
    requires |digits| >= 1 && forall i :: 0 <= i < |digits| ==> IsDigit(digits[i])
    ensures var name := "1_" + digits + ".bin";
            IsRunName(name) && name[2..|name| - 4] == digits
  {
    var name := "1_" + digits + ".bin";
    assert name[..2] == "1_";
    assert name[|name| - 4..] == ".bin";
    assert name[2..|name| - 4] == digits;
    forall k | 2 <= k < |name| - 4 ensures IsDigit(name[k]) {
      assert name[k] == digits[k - 2];
    }
  }

  /** `format!("1_{}.bin", chunks.len())`: the name of run `i`, which has
      the run shape with the index's digits in the middle. */
  function RunName(i: nat): (name: string)
    ensures IsRunName(name) && name[2..|name| - 4] == DecimalDigits(i)
  {
    RunShape(DecimalDigits(i));
    "1_" + DecimalDigits(i) + ".bin"
  }

  /** Distinct chunks get distinct run files. */
  lemma RunNameInjective(i: nat, j: nat)
    requires RunName(i) == RunName(j)
    ensures i == j
  {
    ParseDecimalDigits(i);
    ParseDecimalDigits(j);
  }

  /** Neither the input nor the output file has a run name, so writing runs
      touches neither, and they are different files. */
  lemma ReservedNames()
    ensures !IsRunName(InputName) && !IsRunName(OutputName) && InputName != OutputName
  {
    assert |InputName| == 5;
    assert OutputName[2] == 'd';
  }

  /** Run `i` is stored under `RunName(i)`. */
  ghost predicate NamedRuns(files: FileSystem, chunks: seq<string>) {
    forall i :: 0 <= i < |chunks| ==> chunks[i] == RunName(i) && chunks[i] in files
  }

  /** `name` is the name of one of the first `count` runs. */
  predicate IsRunOf(name: string, count: nat) {
    exists i :: 0 <= i < count && name == RunName(i)
  }

  /** Only the files `chunks` names were written or created. */
  ghost predicate OnlyRunsWritten(fs: FileSystem, files: FileSystem, chunks: seq<string>) {
    && (forall name :: name in fs && name !in chunks ==> name in files && files[name] == fs[name])
    && (forall name :: name in files ==> name in fs || name in chunks)
  }

  /** What the chunk loop has produced once the keys `seen` have been read:
      run `i` is stored under `RunName(i)`, every run is sorted, the runs
      together hold exactly the keys of `seen`, and no file without a run
      name was touched. */
  ghost predicate RunsWritten(fs: FileSystem, files: FileSystem, chunks: seq<string>, seen: seq<u32>) {
    && NamedRuns(files, chunks)
    && AllSorted(RunValues(files, chunks))
    && UnionOf(RunValues(files, chunks)) == Elems(seen)
    && OnlyRunsWritten(fs, files, chunks)
  }

  /** Run `i` is chunk `i` of the stream, sorted and written with
      duplicates collapsed. */
  ghost predicate RunContents(files: FileSystem, chunks: seq<string>, done: seq<seq<u32>>) {
    && |chunks| == |done|
    && forall i :: 0 <= i < |chunks| ==>
         chunks[i] in files && files[chunks[i]] == Encode(Collapse(SortUnstable(done[i])))
  }

  /** Writing a file under a new name adds one run and changes no other. */
  lemma RunValuesExtend(files: FileSystem, chunks: seq<string>, name: string, content: seq<u8>)
    requires forall i :: 0 <= i < |chunks| ==> chunks[i] in files && chunks[i] != name
    ensures RunValues(files[name := content], chunks + [name]) == RunValues(files, chunks) + [Decode(content)]
  {
    var runs' := RunValues(files[name := content], chunks + [name]);
    var runs := RunValues(files, chunks);
    forall i | 0 <= i < |chunks| ensures runs'[i] == runs[i] {
      assert (chunks + [name])[i] == chunks[i];
    }
  }

  /** The next run name is new, and storing the next run under it keeps
      the run names in order and touches no other file. */
  lemma NextRunName(fs: FileSystem, files: FileSystem, chunks: seq<string>, content: seq<u8>)
    requires NamedRuns(files, chunks) && OnlyRunsWritten(fs, files, chunks)
    ensures forall i :: 0 <= i < |chunks| ==> chunks[i] != RunName(|chunks|)
    ensures var name := RunName(|chunks|);
            NamedRuns(files[name := content], chunks + [name]) && OnlyRunsWritten(fs, files[name := content], chunks + [name])
  {
    var name := RunName(|chunks|);
    var files' := files[name := content];
    forall i | 0 <= i < |chunks| ensures chunks[i] != name {
      if chunks[i] == name {
        RunNameInjective(i, |chunks|);
      }
    }
    forall i | 0 <= i < |chunks| + 1 ensures (chunks + [name])[i] == RunName(i) && (chunks + [name])[i] in files' {
      if i < |chunks| {
        assert (chunks + [name])[i] == chunks[i];
      }
    }
    WriteOneMore(fs, files, chunks, name, content);
  }

  /** Writing one more file, and counting it among those written, keeps
      `OnlyRunsWritten`. */
  lemma WriteOneMore(fs: FileSystem, files: FileSystem, chunks: seq<string>, name: string, content: seq<u8>)
    requires OnlyRunsWritten(fs, files, chunks)
    ensures OnlyRunsWritten(fs, files[name := content], chunks + [name])
  {
    var files' := files[name := content];
    forall other | other in fs && other !in chunks + [name] ensures other in files' && files'[other] == fs[other] {
      assert other != name && other !in chunks;
    }
    forall other | other in files' ensures other in fs || other in chunks + [name] {
      if other != name {
        assert other in files;
      }
    }
  }

  /** Adding a sorted run keeps every run sorted and adds its keys. */
  lemma AddSortedRun(runs: seq<seq<u32>>, run: seq<u32>, seen: seq<u32>, chunk: seq<u32>)
    requires AllSorted(runs) && UnionOf(runs) == Elems(seen)
    requires Sorted(run) && Elems(run) == Elems(chunk)
    ensures AllSorted(runs + [run]) && UnionOf(runs + [run]) == Elems(seen + chunk)
  {
    UnionOfAppend(runs, run);
    assert Elems(seen + chunk) == Elems(seen) + Elems(chunk);
  }

  /** Sorting a chunk and writing it as the next run keeps `RunsWritten`,
      with the chunk's keys added to those seen, and keeps `RunContents`,
      with the chunk added to those done. */
  lemma AddRun(fs: FileSystem, files: FileSystem, chunks: seq<string>, seen: seq<u32>, done: seq<seq<u32>>, chunk: seq<u32>)
    requires RunsWritten(fs, files, chunks, seen) && RunContents(files, chunks, done)
    ensures var name := RunName(|chunks|);
            var files' := files[name := Encode(Collapse(SortUnstable(chunk)))];
            RunsWritten(fs, files', chunks + [name], seen + chunk) && RunContents(files', chunks + [name], done + [chunk])
  {
    var name := RunName(|chunks|);
    var run := Collapse(SortUnstable(chunk));
    NextRunName(fs, files, chunks, Encode(run));
    RunValuesExtend(files, chunks, name, Encode(run));
    WrittenRun(SortUnstable(chunk));
    SortKeepsElems(chunk);
    AddSortedRun(RunValues(files, chunks), run, seen, chunk);
    var files' := files[name := Encode(run)];
    forall i | 0 <= i < |chunks| + 1
      ensures (chunks + [name])[i] in files' && files'[(chunks + [name])[i]] == Encode(Collapse(SortUnstable((done + [chunk])[i])))
    {
      if i < |chunks| {
        assert (chunks + [name])[i] == chunks[i] && (done + [chunk])[i] == done[i];
      }
    }
  }

  /** Moving the next chunk of `n` keys from the stream to the keys read
      loses none, and it is the next of the stream's chunks. */
  lemma TakeChunk(values: seq<u32>, seen: seq<u32>, chunks: seq<seq<u32>>, done: seq<seq<u32>>, rest: seq<u32>, chunkSize: nat, n: nat)
    requires values == seen + rest && chunks == done + Chunked(rest, chunkSize)
    requires 0 < n == Min(chunkSize, |rest|)
    ensures values == seen + rest[..n] + rest[n..]
    ensures chunks == (done + [rest[..n]]) + Chunked(rest[n..], chunkSize)
  {
    assert rest == rest[..n] + rest[n..];
    assert Chunked(rest, chunkSize) == [rest[..n]] + Chunked(rest[n..], chunkSize);
  }

  /** What the chunk loop knows when the stream `values` has `rest` left:
      the keys read so far, `seen`, came in the chunks `done`, which are
      the stream's first chunks; nothing is read at chunk size zero; and
      the runs written so far hold those chunks. */
  ghost predicate ChunkLoop(fs: FileSystem, files: FileSystem, chunks: seq<string>, values: seq<u32>,
                            seen: seq<u32>, done: seq<seq<u32>>, rest: seq<u32>, chunkSize: nat) {
    && values == seen + rest
    && Chunked(values, chunkSize) == done + Chunked(rest, chunkSize)
    && (chunkSize == 0 ==> seen == [])
    && RunsWritten(fs, files, chunks, seen) && RunContents(files, chunks, done)
  }

  /** One round of the chunk loop: taking the next chunk of the stream and
      writing it, sorted and collapsed, as the next run keeps `ChunkLoop`. */
  lemma NextRun(fs: FileSystem, files: FileSystem, chunks: seq<string>, values: seq<u32>,
                seen: seq<u32>, done: seq<seq<u32>>, rest: seq<u32>, chunkSize: nat, n: nat)
    requires ChunkLoop(fs, files, chunks, values, seen, done, rest, chunkSize)
    requires 0 < n == Min(chunkSize, |rest|)
    ensures var name := RunName(|chunks|);
            ChunkLoop(fs, files[name := Encode(Collapse(SortUnstable(rest[..n])))], chunks + [name], values,
                      seen + rest[..n], done + [rest[..n]], rest[n..], chunkSize)
  {
    TakeChunk(values, seen, Chunked(values, chunkSize), done, rest, chunkSize, n);
    AddRun(fs, files, chunks, seen, done, rest[..n]);
  }

  /** When the loop stops, the stream is used up (or the chunk size is
      zero), so the runs hold all of the stream's chunks. */
  lemma FinishRuns(fs: FileSystem, files: FileSystem, chunks: seq<string>, values: seq<u32>,
                   seen: seq<u32>, done: seq<seq<u32>>, rest: seq<u32>, chunkSize: nat)
    requires ChunkLoop(fs, files, chunks, values, seen, done, rest, chunkSize)
    requires chunkSize > 0 ==> rest == []
    ensures RunsWritten(fs, files, chunks, if chunkSize == 0 then [] else values)
    ensures RunContents(files, chunks, Chunked(values, chunkSize))
  {
    assert Chunked(rest, chunkSize) == [];
    assert done + [] == done;
    if chunkSize > 0 {
      assert seen + [] == seen;
    }
  }

  /** The chunk loop of `main`: read a chunk, stop when it is empty, else
      sort it and write it as the next run file. Afterwards the stream is
      exhausted (unless the chunk size is zero, when nothing is read), run
      `i` is chunk `i` of the stream, sorted and collapsed, under
      `1_i.bin`, the runs hold exactly the stream's keys, and only run
      files were written. */
  method WriteRuns(fs: FileSystem, integers: Integers, chunkSize: nat) returns (files: FileSystem, chunks: seq<string>)
    requires integers.Valid()
    modifies integers
    ensures integers.Valid() && (chunkSize > 0 ==> integers.Remaining == [])
    ensures RunsWritten(fs, files, chunks, if chunkSize == 0 then [] else old(integers.Remaining))
    ensures RunContents(files, chunks, Chunked(old(integers.Remaining), chunkSize))
  {
    ghost var values := integers.Remaining;
    files := fs;
    var buffer: seq<u32> := [];
    chunks := [];
    // the keys read so far, and the chunks they came in
    ghost var seen: seq<u32> := [];
    ghost var done: seq<seq<u32>> := [];

    while true
      invariant integers.Valid() && buffer == []
      invariant ChunkLoop(fs, files, chunks, values, seen, done, integers.Remaining, chunkSize)
      decreases |integers.Remaining|
    {
      ghost var rest := integers.Remaining;
      var len;
      buffer, len := ReadChunk(integers, buffer, chunkSize);
      if len == 0 {
        assert integers.Remaining == rest;
        break;
      }
      assert buffer == rest[..len];
      NextRun(fs, files, chunks, values, seen, done, rest, chunkSize, len);
      seen := seen + buffer;
      done := done + [buffer];
      var chunkName := RunName(|chunks|);
      buffer := SortUnstable(buffer);
      files := WriteChunk(files, buffer, chunkName);
      chunks := chunks + [chunkName];
      buffer := [];
    }
    FinishRuns(fs, files, chunks, values, seen, done, integers.Remaining, chunkSize);
  }

  /** Run `i` is the `i`-th slice of `chunkSize` keys of the stream (the
      last one cut short), sorted and collapsed. */
  lemma RunIsSlice(files: FileSystem, chunks: seq<string>, stream: seq<u32>, chunkSize: nat, i: nat)
    requires RunContents(files, chunks, Chunked(stream, chunkSize)) && i < |chunks|
    ensures i * chunkSize < |stream|
    ensures files[chunks[i]] == Encode(Collapse(SortUnstable(stream[i * chunkSize .. Min((i + 1) * chunkSize, |stream|)])))
  {
    ChunkedAt(stream, chunkSize, i);
  }

  /** There are as many run files as slices of `chunkSize` keys it takes
      to cover the stream: none for an empty stream or a zero chunk size. */
  lemma RunCount(files: FileSystem, chunks: seq<string>, stream: seq<u32>, chunkSize: nat)
    requires RunContents(files, chunks, Chunked(stream, chunkSize))
    ensures chunkSize == 0 || stream == [] ==> chunks == []
    ensures chunkSize > 0 && stream != [] ==> (|chunks| - 1) * chunkSize < |stream| <= |chunks| * chunkSize
  {
    if chunkSize > 0 {
      ChunkedCount(stream, chunkSize);
    }
  }

  /** What `main` leaves behind when `1.bin` exists: the output holds,
      ascending and each once, every key of the input (none when the chunk
      size is zero); run `i` under `RunName(i)` holds chunk `i` of the
      input, sorted and collapsed; every other file except the output is
      left as it was, including files with a run name of a run not written
      this time; and no other file appears. */
  ghost predicate SortedDistinct(fs: FileSystem, out: FileSystem, chunkSize: nat)
    requires InputName in fs
  {
    && OutputName in out
    && |out[OutputName]| % 4 == 0
    && StrictlyIncreasing(Decode(out[OutputName]))
    && Elems(Decode(out[OutputName])) == (if chunkSize == 0 then {} else Elems(Decode(fs[InputName])))
    && (var runs := Chunked(Decode(fs[InputName]), chunkSize);
        forall i :: 0 <= i < |runs| ==>
          RunName(i) in out && out[RunName(i)] == Encode(Collapse(SortUnstable(runs[i]))))
    && (forall name :: name in fs && name != OutputName && !IsRunOf(name, |Chunked(Decode(fs[InputName]), chunkSize)|) ==>
          name in out && out[name] == fs[name])
    && (forall name :: name in out ==> name in fs || IsRunOf(name, |Chunked(Decode(fs[InputName]), chunkSize)|) || name == OutputName)
  }

  /** The chunk loop followed by the merge gives `SortedDistinct`. */
  lemma MergedRuns(fs: FileSystem, files: FileSystem, chunks: seq<string>, merged: FileSystem, chunkSize: nat)
    requires InputName in fs
    requires RunsWritten(fs, files, chunks, if chunkSize == 0 then [] else Decode(fs[InputName]))
    requires RunContents(files, chunks, Chunked(Decode(fs[InputName]), chunkSize))
    requires OutputName in merged && merged == files[OutputName := merged[OutputName]]
    requires |merged[OutputName]| % 4 == 0 && StrictlyIncreasing(Decode(merged[OutputName]))
    requires AllSorted(RunValues(files[OutputName := []], chunks)) ==>
               Elems(Decode(merged[OutputName])) == UnionOf(RunValues(files[OutputName := []], chunks))
    ensures SortedDistinct(fs, merged, chunkSize)
  {
    MergedOutput(fs, files, chunks, merged, chunkSize);
    var runs := Chunked(Decode(fs[InputName]), chunkSize);
    MergedRunFiles(files, chunks, merged, runs);
    MergedFrame(fs, files, chunks, merged, |runs|);
  }

  /** The merged output holds, ascending and each once, the keys of the
      stream the runs were cut from. */
  lemma MergedOutput(fs: FileSystem, files: FileSystem, chunks: seq<string>, merged: FileSystem, chunkSize: nat)
    requires InputName in fs
    requires RunsWritten(fs, files, chunks, if chunkSize == 0 then [] else Decode(fs[InputName]))
    requires OutputName in merged
    requires AllSorted(RunValues(files[OutputName := []], chunks)) ==>
               Elems(Decode(merged[OutputName])) == UnionOf(RunValues(files[OutputName := []], chunks))
    ensures Elems(Decode(merged[OutputName])) == (if chunkSize == 0 then {} else Elems(Decode(fs[InputName])))
  {
    ReservedNames();
    assert RunValues(files[OutputName := []], chunks) == RunValues(files, chunks);
  }

  /** The merge leaves every run file as the chunk loop wrote it. */
  lemma MergedRunFiles(files: FileSystem, chunks: seq<string>, merged: FileSystem, runs: seq<seq<u32>>)
    requires NamedRuns(files, chunks) && RunContents(files, chunks, runs)
    requires OutputName in merged && merged == files[OutputName := merged[OutputName]]
    ensures forall i :: 0 <= i < |runs| ==>
              RunName(i) in merged && merged[RunName(i)] == Encode(Collapse(SortUnstable(runs[i])))
  {
    ReservedNames();
    forall i | 0 <= i < |runs|
      ensures RunName(i) in merged && merged[RunName(i)] == Encode(Collapse(SortUnstable(runs[i])))
    {
      assert chunks[i] == RunName(i) && RunName(i) != OutputName;
    }
  }

  /** The files the chunk loop and the merge leave alone: all but the runs
      written and the output. */
  lemma MergedFrame(fs: FileSystem, files: FileSystem, chunks: seq<string>, merged: FileSystem, count: nat)
    requires NamedRuns(files, chunks) && OnlyRunsWritten(fs, files, chunks) && |chunks| == count
    requires OutputName in merged && merged == files[OutputName := merged[OutputName]]
    ensures forall name :: name in fs && name != OutputName && !IsRunOf(name, count) ==>
              name in merged && merged[name] == fs[name]
    ensures forall name :: name in merged ==> name in fs || IsRunOf(name, count) || name == OutputName
  {
    forall name | name in fs && name != OutputName && !IsRunOf(name, count)
      ensures name in merged && merged[name] == fs[name]
    {
      forall j | 0 <= j < |chunks| ensures chunks[j] != name {
        assert chunks[j] == RunName(j);
      }
    }
    forall name | name in merged ensures name in fs || IsRunOf(name, count) || name == OutputName {
      if name != OutputName && name !in fs {
        var j :| 0 <= j < |chunks| && chunks[j] == name;
        assert name == RunName(j);
      }
    }
  }

  /** `main` run against the file system `fs`, with the chunk size as a
      parameter. A missing input is the `?` on `File::open("1.bin")`;
      otherwise the result is as `SortedDistinct` describes. */
  method ExternalSortDistinct(fs: FileSystem, chunkSize: nat) returns (result: Result<FileSystem>)
    ensures InputName !in fs ==> result == Err(NotFound(InputName))
    ensures InputName in fs ==> result.Ok? && SortedDistinct(fs, result.value, chunkSize)
  {
    if InputName !in fs {
      return Err(NotFound(InputName));
    }
    var integers := new Integers(fs[InputName]);
    var files, chunks := WriteRuns(fs, integers, chunkSize);
    var merged := MergeDistinct(files, chunks, OutputName);
    MergedRuns(fs, files, chunks, merged, chunkSize);
    return Ok(merged);
  }

  /** The output is determined by its set of keys: two outputs holding the
      same keys are the same bytes. So the output does not depend on the
      (positive) chunk size, and sorting an output again reproduces it. */
  lemma OutputDeterminedByKeys(a: seq<u8>, b: seq<u8>)
    requires |a| % 4 == 0 && |b| % 4 == 0
    requires StrictlyIncreasing(Decode(a)) && StrictlyIncreasing(Decode(b))
    requires Elems(Decode(a)) == Elems(Decode(b))
    ensures a == b
  {
    StrictlyIncreasingUnique(Decode(a), Decode(b));
    DecodeInjective(a, b);
  }
}

/** `merge_distinct`: the k-way merge of the run files into one ascending,
    duplicate-free output file. Each run is read through its own
    `Peekable<Integers>` cursor; `last_write` is the last key written. */
module Merge {
  import opened Types
  import opened LittleEndian
  import opened Ordering
  import opened IntegerStream

  /** The keys of each named file, in the order of `names`. */
  ghost function RunValues(fs: FileSystem, names: seq<string>): (runs: seq<seq<u32>>)
    requires forall i :: 0 <= i < |names| ==> names[i] in fs
    ensures |runs| == |names|
  {
    seq(|names|, i requires 0 <= i < |names| => Decode(fs[names[i]]))
  }

  /** The closure handed to `filter_map`: while a key was already written
      and the cursor's next key is not above it, advance the cursor; then
      peek. `dropped` counts the keys skipped. */
  method SkipWritten(reader: Peekable, lastWrite: Option<u32>, ghost pending: seq<u32>) returns (head: Option<u32>, ghost dropped: nat)
    requires reader.Valid() && reader.Pending == pending
    modifies reader, reader.iter
    ensures reader.Valid()
    ensures dropped <= |pending| && reader.Pending == pending[dropped..]
    ensures dropped > 0 ==> lastWrite.Some?
    ensures forall k :: 0 <= k < dropped && lastWrite.Some? ==> pending[k] <= lastWrite.value
    ensures head == if reader.Pending == [] then None else Some(reader.Pending[0])
    ensures head.Some? && lastWrite.Some? ==> head.value > lastWrite.value
  {
    dropped := 0;
    // `last_write.map(..).unwrap_or(false)` is false throughout when
    // nothing has been written yet
    if lastWrite.Some? {
      var lastWritten := lastWrite.value;
      while true
        invariant reader.Valid()
        invariant dropped <= |pending| && reader.Pending == pending[dropped..]
        invariant forall k :: 0 <= k < dropped ==> pending[k] <= lastWritten
        decreases |reader.Pending|
      {
        var next := reader.Peek();
        if next.None? || next.value > lastWritten {
          break;
        }
        DropOne(pending, dropped);
        var _ := reader.Next();
        dropped := dropped + 1;
      }
    }
    head := reader.Peek();
  }

  lemma DropOne(s: seq<u32>, n: nat)
    requires n < |s|
    ensures s[n..][0] == s[n] && s[n..][1..] == s[n + 1..]
  {
  }

  /** Distinct cursors over distinct readers: advancing one leaves the
      others alone. */
  ghost predicate Separate(readers: seq<Peekable>) {
    forall j, k :: 0 <= j < k < |readers| ==> readers[j] != readers[k] && readers[j].iter != readers[k].iter
  }

  /** `taken[j]` is a position in `runs[j]`. */
  ghost predicate InRange(runs: seq<seq<u32>>, taken: seq<nat>) {
    |taken| == |runs| && forall j :: 0 <= j < |runs| ==> taken[j] <= |runs[j]|
  }

  /** Cursor `r` has consumed the first `t` keys of `run` and will yield
      the rest. */
  ghost predicate TracksRun(r: Peekable, run: seq<u32>, t: nat)
    reads r, r.iter
  {
    r.Valid() && t <= |run| && r.Pending == run[t..]
  }

  /** `repr` holds every cursor and the reader under it. */
  ghost predicate Owns(readers: seq<Peekable>, repr: set<object>) {
    forall j :: 0 <= j < |readers| ==> readers[j] in repr && readers[j].iter in repr
  }

  /** Cursor `j` tracks `runs[j]` for every `j`. */
  ghost predicate Tracks(readers: seq<Peekable>, repr: set<object>, runs: seq<seq<u32>>, taken: seq<nat>)
    reads repr
  {
    && Owns(readers, repr) && InRange(runs, taken) && |readers| == |runs|
    && forall j :: 0 <= j < |readers| ==> TracksRun(readers[j], runs[j], taken[j])
  }

  /** Only keys not above the last written one were ever skipped. */
  ghost predicate SkippedWritten(runs: seq<seq<u32>>, taken: seq<nat>, lastWrite: Option<u32>)
    requires InRange(runs, taken)
  {
    match lastWrite
    case None => forall j :: 0 <= j < |runs| ==> taken[j] == 0
    case Some(w) => forall j, k :: 0 <= j < |runs| && 0 <= k < taken[j] ==> runs[j][k] <= w
  }

  /** `m` is the head of cursor `from`, above `lastWrite`, and no larger
      than any other head. */
  ghost predicate LeastHead(runs: seq<seq<u32>>, taken: seq<nat>, lastWrite: Option<u32>, m: u32, from: nat)
    requires InRange(runs, taken)
  {
    && from < |runs| && taken[from] < |runs[from]| && runs[from][taken[from]] == m
    && (lastWrite.Some? ==> m > lastWrite.value)
    && forall j :: 0 <= j < |runs| && taken[j] < |runs[j]| ==> m <= runs[j][taken[j]]
  }

  /** Every cursor is at its end. */
  ghost predicate Exhausted(runs: seq<seq<u32>>, taken: seq<nat>)
    requires InRange(runs, taken)
  {
    forall j :: 0 <= j < |runs| ==> taken[j] == |runs[j]|
  }

  /** `Integers::new(File::open(file_name).unwrap()).peekable()`: a fresh
      cursor at the start of the file. */
  method Open(file: seq<u8>) returns (reader: Peekable)
    ensures fresh(reader) && fresh(reader.iter)
    ensures TracksRun(reader, Decode(file), 0)
  {
    var integers := new Integers(file);
    reader := new Peekable(integers);
  }

  /** Cursor `j` is at the start of `runs[j]`, for each of `readers`. */
  ghost predicate AtStart(readers: seq<Peekable>, repr: set<object>, runs: seq<seq<u32>>)
    reads repr
  {
    && Owns(readers, repr) && |readers| <= |runs|
    && forall j :: 0 <= j < |readers| ==> TracksRun(readers[j], runs[j], 0)
  }

  /** The `collect` of the cursors: one fresh cursor at the start of each
      input. */
  method OpenAll(files: FileSystem, inputs: seq<string>) returns (readers: seq<Peekable>, ghost repr: set<object>)
    requires forall i :: 0 <= i < |inputs| ==> inputs[i] in files
    ensures Separate(readers) && fresh(repr)
    ensures Tracks(readers, repr, RunValues(files, inputs), seq(|inputs|, _ => 0))
  {
    ghost var runs := RunValues(files, inputs);
    readers, repr := [], {};
    for i := 0 to |inputs|
      invariant |readers| == i && fresh(repr) && Separate(readers) && AtStart(readers, repr, runs)
    {
      var reader := Open(files[inputs[i]]);
      AddReader(readers, repr, runs, reader);
      readers, repr := readers + [reader], repr + {reader, reader.iter};
    }
  }

  /** A cursor at the start of the next run, over a reader that no earlier
      cursor holds, can join them. */
  lemma AddReader(readers: seq<Peekable>, repr: set<object>, runs: seq<seq<u32>>, reader: Peekable)
    requires Separate(readers) && AtStart(readers, repr, runs) && |readers| < |runs|
    requires reader !in repr && reader.iter !in repr && TracksRun(reader, runs[|readers|], 0)
    ensures Separate(readers + [reader]) && AtStart(readers + [reader], repr + {reader, reader.iter}, runs)
  {
    var readers' := readers + [reader];
    forall j | 0 <= j < |readers'| ensures TracksRun(readers'[j], runs[j], 0) {
      if j < |readers| {
        assert readers'[j] == readers[j];
      }
    }
  }

  /** `SkipWritten` on cursor `i`, with the bookkeeping of how far each
      cursor has got: only cursor `i` moves. */
  method SkipWrittenAt(readers: seq<Peekable>, ghost repr: set<object>, i: nat, lastWrite: Option<u32>, ghost runs: seq<seq<u32>>, ghost taken: seq<nat>)
    returns (head: Option<u32>, ghost taken': seq<nat>)
    requires i < |readers| && Separate(readers) && Tracks(readers, repr, runs, taken)
    requires SkippedWritten(runs, taken, lastWrite)
    modifies readers[i], readers[i].iter
    ensures Tracks(readers, repr, runs, taken')
    ensures SkippedWritten(runs, taken', lastWrite)
    ensures forall j :: 0 <= j < |taken| && j != i ==> taken'[j] == taken[j]
    ensures head == if taken'[i] < |runs[i]| then Some(runs[i][taken'[i]]) else None
    ensures head.Some? && lastWrite.Some? ==> head.value > lastWrite.value
  {
    ghost var dropped;
    head, dropped := SkipWritten(readers[i], lastWrite, runs[i][taken[i]..]);
    taken' := taken[i := taken[i] + dropped];
    forall j | 0 <= j < |readers| && j != i
      ensures TracksRun(readers[j], runs[j], taken'[j])
    {
      assert readers[j] != readers[i] && readers[j].iter != readers[i].iter;
    }
    assert runs[i][taken'[i]..] == runs[i][taken[i]..][dropped..];
  }

  /** What the guard knows after visiting cursors `0 .. i`: each of them is
      exhausted or has a head above `lastWrite`, and `least` is the least
      of those heads, held by cursor `from` (`None` when all are
      exhausted). */
  ghost predicate Scanned(runs: seq<seq<u32>>, taken: seq<nat>, lastWrite: Option<u32>, i: nat, least: Option<u32>, from: nat)
    requires InRange(runs, taken)
  {
    && i <= |runs|
    && (forall j :: 0 <= j < i && taken[j] < |runs[j]| && lastWrite.Some? ==> runs[j][taken[j]] > lastWrite.value)
    && (least.None? ==> forall j :: 0 <= j < i ==> taken[j] == |runs[j]|)
    && (least.Some? ==> from < i && taken[from] < |runs[from]| && runs[from][taken[from]] == least.value)
    && (least.Some? ==> forall j :: 0 <= j < i && taken[j] < |runs[j]| ==> least.value <= runs[j][taken[j]])
  }

  /** Visiting cursor `i` (whose head is now `head`) extends `Scanned` by
      one cursor, keeping `least` or replacing it by `head`. */
  lemma ScanStep(runs: seq<seq<u32>>, taken: seq<nat>, taken': seq<nat>, lastWrite: Option<u32>, i: nat, least: Option<u32>, from: nat, head: Option<u32>)
    requires InRange(runs, taken) && InRange(runs, taken') && i < |runs|
    requires Scanned(runs, taken, lastWrite, i, least, from)
    requires forall j :: 0 <= j < |runs| && j != i ==> taken'[j] == taken[j]
    requires head == if taken'[i] < |runs[i]| then Some(runs[i][taken'[i]]) else None
    requires head.Some? && lastWrite.Some? ==> head.value > lastWrite.value
    ensures head.Some? && (least.None? || head.value < least.value) ==> Scanned(runs, taken', lastWrite, i + 1, head, i)
    ensures !(head.Some? && (least.None? || head.value < least.value)) ==> Scanned(runs, taken', lastWrite, i + 1, least, from)
  {
  }

  /** Once every cursor has been visited, `Scanned` says the guard's answer
      is right. */
  lemma ScanDone(runs: seq<seq<u32>>, taken: seq<nat>, lastWrite: Option<u32>, least: Option<u32>, from: nat)
    requires InRange(runs, taken) && Scanned(runs, taken, lastWrite, |runs|, least, from)
    ensures least.None? ==> Exhausted(runs, taken)
    ensures least.Some? ==> LeastHead(runs, taken, lastWrite, least.value, from)
  {
  }

  /** The guard of the merge loop: skip written keys on every cursor in turn
      and keep the least head (`filter_map` then `min`). Of equal heads
      `min` keeps the first, and so does this loop: a later head replaces
      the one kept only when it is smaller. `from` is the cursor whose head
      is kept. */
  method LeastPending(readers: seq<Peekable>, ghost repr: set<object>, lastWrite: Option<u32>, ghost runs: seq<seq<u32>>, ghost taken: seq<nat>)
    returns (nextWrite: Option<u32>, ghost taken': seq<nat>, ghost from: nat)
    requires Separate(readers) && Tracks(readers, repr, runs, taken)
    requires SkippedWritten(runs, taken, lastWrite)
    modifies repr
    ensures Tracks(readers, repr, runs, taken')
    ensures SkippedWritten(runs, taken', lastWrite)
    ensures nextWrite.None? ==> Exhausted(runs, taken')
    ensures nextWrite.Some? ==> LeastHead(runs, taken', lastWrite, nextWrite.value, from)
  {
    nextWrite := None;
    from := 0;
    taken' := taken;
    for i := 0 to |readers|
      invariant Tracks(readers, repr, runs, taken')
      invariant SkippedWritten(runs, taken', lastWrite)
      invariant Scanned(runs, taken', lastWrite, i, nextWrite, from)
    {
      ghost var before := taken';
      var head;
      head, taken' := SkipWrittenAt(readers, repr, i, lastWrite, runs, taken');
      ScanStep(runs, before, taken', lastWrite, i, nextWrite, from, head);
      if head.Some? && (nextWrite.None? || head.value < nextWrite.value) {
        nextWrite := head;
        from := i;
      }
    }
    ScanDone(runs, taken', lastWrite, nextWrite, from);
  }

  /** Every run is in ascending order, as the run files are. */
  ghost predicate AllSorted(runs: seq<seq<u32>>) {
    forall j :: 0 <= j < |runs| ==> Sorted(runs[j])
  }

  /** What has been written so far: ascending, drawn from the runs, and
      ending in `lastWrite`. */
  ghost predicate Written(runs: seq<seq<u32>>, out: seq<u32>, lastWrite: Option<u32>) {
    && StrictlyIncreasing(out)
    && lastWrite == (if out == [] then None else Some(out[|out| - 1]))
    && Elems(out) <= UnionOf(runs)
  }

  /** Every key of the runs up to `lastWrite` has been written. */
  ghost predicate Covers(runs: seq<seq<u32>>, out: seq<u32>, lastWrite: Option<u32>) {
    forall j, k :: 0 <= j < |runs| && 0 <= k < |runs[j]| && lastWrite.Some? && runs[j][k] <= lastWrite.value ==> runs[j][k] in out
  }

  /** Writing the least pending key keeps `Written`: it is above everything
      written so far and it comes from a run; and every skipped key is below
      it. */
  lemma WriteLeast(runs: seq<seq<u32>>, taken: seq<nat>, out: seq<u32>, lastWrite: Option<u32>, m: u32, from: nat)
    requires InRange(runs, taken)
    requires Written(runs, out, lastWrite) && SkippedWritten(runs, taken, lastWrite)
    requires LeastHead(runs, taken, lastWrite, m, from)
    ensures Written(runs, out + [m], Some(m)) && SkippedWritten(runs, taken, Some(m))
  {
    assert Elems(out + [m]) == Elems(out) + {m};
    assert m in UnionOf(runs) by {
      assert runs[from][taken[from]] == m;
    }
  }

  /** For sorted runs, no key between the old and the new `lastWrite` can
      have been passed over: a run's head is its least pending key. */
  lemma CoverLeast(runs: seq<seq<u32>>, taken: seq<nat>, out: seq<u32>, lastWrite: Option<u32>, m: u32, from: nat)
    requires AllSorted(runs) && InRange(runs, taken)
    requires Covers(runs, out, lastWrite) && SkippedWritten(runs, taken, lastWrite)
    requires LeastHead(runs, taken, lastWrite, m, from)
    ensures Covers(runs, out + [m], Some(m))
  {
    forall j, k | 0 <= j < |runs| && 0 <= k < |runs[j]| && runs[j][k] <= m
      ensures runs[j][k] in out + [m]
    {
      if !(lastWrite.Some? && runs[j][k] <= lastWrite.value) {
        assert k >= taken[j];
        assert runs[j][taken[j]] <= runs[j][k];
      }
    }
  }

  /** Once every cursor is exhausted, every key of every run was skipped and
      so is at most `lastWrite`; for sorted runs that means it was written. */
  lemma AllWritten(runs: seq<seq<u32>>, taken: seq<nat>, out: seq<u32>, lastWrite: Option<u32>)
    requires InRange(runs, taken) && Exhausted(runs, taken)
    requires Elems(out) <= UnionOf(runs)
    requires Covers(runs, out, lastWrite) && SkippedWritten(runs, taken, lastWrite)
    ensures Elems(out) == UnionOf(runs)
  {
    forall x | x in UnionOf(runs) ensures x in Elems(out) {
      var j, k :| 0 <= j < |runs| && 0 <= k < |runs[j]| && runs[j][k] == x;
    }
  }

  /** The output so far, as the loop keeps it: `Written`, and `Covers` when
      the runs are sorted. */
  ghost predicate Output(runs: seq<seq<u32>>, sorted: bool, out: seq<u32>, lastWrite: Option<u32>) {
    Written(runs, out, lastWrite) && (sorted ==> Covers(runs, out, lastWrite))
  }

  /** One round of the merge loop on the ghost state. */
  lemma WriteStep(runs: seq<seq<u32>>, sorted: bool, taken: seq<nat>, out: seq<u32>, lastWrite: Option<u32>, m: u32, from: nat)
    requires sorted ==> AllSorted(runs)
    requires InRange(runs, taken) && SkippedWritten(runs, taken, lastWrite)
    requires Output(runs, sorted, out, lastWrite)
    requires LeastHead(runs, taken, lastWrite, m, from)
    ensures Output(runs, sorted, out + [m], Some(m)) && SkippedWritten(runs, taken, Some(m))
  {
    WriteLeast(runs, taken, out, lastWrite, m, from);
    if sorted {
      CoverLeast(runs, taken, out, lastWrite, m, from);
    }
  }

  /** What the merge loop leaves behind once every cursor is exhausted. */
  lemma WriteFinal(runs: seq<seq<u32>>, sorted: bool, taken: seq<nat>, out: seq<u32>, lastWrite: Option<u32>)
    requires InRange(runs, taken) && Exhausted(runs, taken) && SkippedWritten(runs, taken, lastWrite)
    requires Output(runs, sorted, out, lastWrite)
    ensures |Encode(out)| % 4 == 0
    ensures Decode(Encode(out)) == out
    ensures StrictlyIncreasing(out) && Elems(out) <= UnionOf(runs)
    ensures sorted ==> Elems(out) == UnionOf(runs)
  {
    DecodeEncode(out);
    if sorted {
      AllWritten(runs, taken, out, lastWrite);
    }
  }

  /** Round measure: `last_write` only grows, and a `u32` cannot grow
      forever. */
  function Headroom(lastWrite: Option<u32>): nat {
    if lastWrite.None? then 0x1_0000_0000 else 0xFFFF_FFFF - lastWrite.value
  }

  /** The loop of `merge_distinct`: while some cursor has a key above
      `last_write`, write the least such key. Returns the bytes written. */
  method WriteDistinct(readers: seq<Peekable>, ghost repr: set<object>, ghost runs: seq<seq<u32>>) returns (writer: seq<u8>)
    requires Separate(readers) && Tracks(readers, repr, runs, seq(|readers|, _ => 0))
    modifies repr
    ensures |writer| % 4 == 0
    ensures StrictlyIncreasing(Decode(writer))
    ensures Elems(Decode(writer)) <= UnionOf(runs)
    ensures AllSorted(runs) ==> Elems(Decode(writer)) == UnionOf(runs)
  {
    ghost var sorted := AllSorted(runs);
    writer := [];
    var lastWrite: Option<u32> := None;
    ghost var out: seq<u32> := [];
    ghost var taken: seq<nat> := seq(|readers|, _ => 0);

    while true
      invariant Separate(readers) && Tracks(readers, repr, runs, taken)
      invariant SkippedWritten(runs, taken, lastWrite)
      invariant writer == Encode(out)
      invariant Output(runs, sorted, out, lastWrite)
      decreases Headroom(lastWrite)
    {
      var nextWrite, taken', from := LeastPending(readers, repr, lastWrite, runs, taken);
      taken := taken';
      if nextWrite.None? {
        break;
      }
      var m := nextWrite.value;
      WriteStep(runs, sorted, taken, out, lastWrite, m, from);
      EncodeSnoc(out, m);
      writer := writer + ToLeBytes(m);
      out := out + [m];
      lastWrite := Some(m);
    }
    WriteFinal(runs, sorted, taken, out, lastWrite);
  }

  /** `merge_distinct`: create `output`, open every input, and write the
      least pending key above the last one written until no cursor has one.
      The output is strictly increasing for any inputs; when every input is
      sorted it holds exactly the keys of all inputs. */
  method MergeDistinct(fs: FileSystem, inputs: seq<string>, output: string) returns (fs': FileSystem)
    requires forall i :: 0 <= i < |inputs| ==> inputs[i] in fs[output := []]
    ensures output in fs' && fs' == fs[output := fs'[output]]
    ensures |fs'[output]| % 4 == 0
    ensures StrictlyIncreasing(Decode(fs'[output]))
    ensures Elems(Decode(fs'[output])) <= UnionOf(RunValues(fs[output := []], inputs))
    ensures AllSorted(RunValues(fs[output := []], inputs)) ==>
              Elems(Decode(fs'[output])) == UnionOf(RunValues(fs[output := []], inputs))
  {
    var files := fs[output := []];
    var readers, repr := OpenAll(files, inputs);
    var writer := WriteDistinct(readers, repr, RunValues(files, inputs));
    fs' := files[output := writer];
  }
}

/** The two per-chunk steps of the external sort: `read_chunk` fills the
    buffer from the input stream, and `write_chunk` stores a sorted buffer
    as a run file with adjacent duplicates collapsed. */
module Chunks {
  import opened Types
  import opened LittleEndian
  import opened Ordering
  import opened IntegerStream

  function Min(a: nat, b: nat): nat {
    if a <= b then a else b
  }

  /** `read_chunk`: extend `buffer` with at most `chunkSize` keys taken from
      the stream (`take` then `extend`) and report the buffer's new length. */
  method ReadChunk(integers: Integers, buffer: seq<u32>, chunkSize: nat) returns (filled: seq<u32>, len: nat)
    requires integers.Valid()
    modifies integers
    ensures integers.Valid()
    ensures var n := Min(chunkSize, |old(integers.Remaining)|);
            && filled == buffer + old(integers.Remaining)[..n]
            && integers.Remaining == old(integers.Remaining)[n..]
    ensures len == |filled|
    ensures buffer == [] && chunkSize > 0 ==> (len == 0 <==> old(integers.Remaining) == [])
  {
    ghost var stream := integers.Remaining;
    filled := buffer;
    var taken: nat := 0;
    while taken < chunkSize
      invariant integers.Valid()
      invariant taken <= chunkSize && taken <= |stream|
      invariant filled == buffer + stream[..taken]
      invariant integers.Remaining == stream[taken..]
      decreases chunkSize - taken
    {
      var next := integers.Next();
      if next.None? {
        break;
      }
      filled := filled + [next.value];
      taken := taken + 1;
    }
    len := |filled|;
  }

  /** The chunks `read_chunk` yields, one after another, from a fresh
      buffer: the next `chunkSize` keys while at least that many are left,
      then the rest, and nothing once the stream is exhausted (or at once
      when the chunk size is zero). `ChunkedAt` and `ChunkedCount` give
      each chunk and their number in closed form. */
  function Chunked(stream: seq<u32>, chunkSize: nat): seq<seq<u32>>
    decreases |stream|
  {
    if chunkSize == 0 || stream == [] then []
    else
      var n := Min(chunkSize, |stream|);
      [stream[..n]] + Chunked(stream[n..], chunkSize)
  }

  lemma SliceOfDrop(s: seq<u32>, n: nat, lo: nat, hi: nat)
    requires n <= |s| && lo <= hi <= |s| - n
    ensures s[n..][lo .. hi] == s[lo + n .. hi + n]
  {
  }

  lemma MulSucc(i: nat, c: nat)
    ensures (i + 1) * c == i * c + c && i * c >= 0
  {
  }

  /** `i * chunkSize`, counted up one chunk at a time. */
  function Offset(i: nat, chunkSize: nat): nat {
    if i == 0 then 0 else Offset(i - 1, chunkSize) + chunkSize
  }

  lemma {:induction false} OffsetIsProduct(i: nat, chunkSize: nat)
    ensures Offset(i, chunkSize) == i * chunkSize
  {
    if i > 0 {
      OffsetIsProduct(i - 1, chunkSize);
      MulSucc(i - 1, chunkSize);
    }
  }

  /** Past the first chunk, the chunks are those of the stream after
      `chunkSize` keys. */
  lemma ChunkedTail(stream: seq<u32>, chunkSize: nat, i: nat)
    requires 0 < i < |Chunked(stream, chunkSize)|
    ensures chunkSize < |stream|
    ensures i - 1 < |Chunked(stream[chunkSize..], chunkSize)|
    ensures Chunked(stream, chunkSize)[i] == Chunked(stream[chunkSize..], chunkSize)[i - 1]
  {
    var n := Min(chunkSize, |stream|);
    assert Chunked(stream, chunkSize) == [stream[..n]] + Chunked(stream[n..], chunkSize);
  }

  /** Chunk `i` starts `Offset(i)` keys into the stream. */
  lemma {:induction false} ChunkedAtOffset(stream: seq<u32>, chunkSize: nat, i: nat)
    requires i < |Chunked(stream, chunkSize)|
    ensures Offset(i, chunkSize) < |stream|
    ensures Chunked(stream, chunkSize)[i] == stream[Offset(i, chunkSize) .. Min(Offset(i + 1, chunkSize), |stream|)]
    decreases i
  {
    var c := chunkSize;
    assert Offset(i + 1, c) == Offset(i, c) + c;
    if i == 0 {
      assert Chunked(stream, c)[0] == stream[..Min(c, |stream|)];
    } else {
      ChunkedTail(stream, c, i);
      var tail := stream[c..];
      ChunkedAtOffset(tail, c, i - 1);
      var lo := Offset(i - 1, c);
      var hi := Min(Offset(i, c), |tail|);
      assert hi + c == Min(Offset(i + 1, c), |stream|);
      SliceOfDrop(stream, c, lo, hi);
    }
  }

  /** Chunk `i` is the `i`-th slice of `chunkSize` keys, cut short at the
      end of the stream. */
  lemma ChunkedAt(stream: seq<u32>, chunkSize: nat, i: nat)
    requires i < |Chunked(stream, chunkSize)|
    ensures i * chunkSize < |stream|
    ensures Chunked(stream, chunkSize)[i] == stream[i * chunkSize .. Min((i + 1) * chunkSize, |stream|)]
  {
    ChunkedAtOffset(stream, chunkSize, i);
    OffsetIsProduct(i, chunkSize);
    OffsetIsProduct(i + 1, chunkSize);
  }

  /** There are as many chunks as `chunkSize`-slices needed to cover the
      stream (`|stream| / chunkSize` rounded up): none for an empty stream,
      otherwise one fewer would hold fewer keys than the stream has, and
      that many hold at least as many. */
  lemma {:induction false} ChunkedCount(stream: seq<u32>, chunkSize: nat)
    requires chunkSize > 0
    ensures stream == [] <==> Chunked(stream, chunkSize) == []
    ensures stream != [] ==>
              (|Chunked(stream, chunkSize)| - 1) * chunkSize < |stream| <= |Chunked(stream, chunkSize)| * chunkSize
    decreases |stream|
  {
    var c := chunkSize;
    if stream != [] {
      var n := Min(c, |stream|);
      var tail := stream[n..];
      ChunkedCount(tail, c);
      var m := |Chunked(tail, c)|;
      assert |Chunked(stream, c)| == m + 1;
      MulSucc(m, c);
      if tail != [] {
        MulSucc(m - 1, c);
      }
    }
  }

  /** What `write_chunk` keeps of a buffer: element `i` is written exactly
      when it is the first one or differs from element `i - 1`. Defined
      from the back, the way the writer's loop grows its output. */
  function Collapse(s: seq<u32>): (r: seq<u32>)
    ensures |r| <= |s|
    ensures s != [] ==> r != [] && r[0] == s[0] && r[|r| - 1] == s[|s| - 1]
  {
    if |s| == 0 then []
    else if |s| >= 2 && s[|s| - 1] == s[|s| - 2] then Collapse(s[..|s| - 1])
    else Collapse(s[..|s| - 1]) + [s[|s| - 1]]
  }

  /** `a` can be obtained from `b` by deleting elements. */
  predicate IsSubsequence(a: seq<u32>, b: seq<u32>)
    decreases |b|
  {
    a == [] ||
    (b != [] &&
     ((a[|a| - 1] == b[|b| - 1] && IsSubsequence(a[..|a| - 1], b[..|b| - 1])) ||
      IsSubsequence(a, b[..|b| - 1])))
  }

  /** Collapsing never adds a key and never loses one. */
  lemma {:induction false} CollapseKeepsElems(s: seq<u32>)
    ensures Elems(Collapse(s)) == Elems(s)
    decreases |s|
  {
    if |s| > 0 {
      var i := |s| - 1;
      var init := s[..i];
      CollapseKeepsElems(init);
      CollapseStep(s, i);
      assert s[..i + 1] == s;
      assert s == init + [s[i]];
      ElemsSnoc(init, s[i]);
      if i > 0 && s[i] == s[i - 1] {
        assert s[i] in Elems(init) by { assert init[i - 1] == s[i]; }
        assert Collapse(s) == Collapse(init);
        assert Elems(s) == Elems(init);
      } else {
        assert Collapse(s) == Collapse(init) + [s[i]];
        ElemsSnoc(Collapse(init), s[i]);
      }
    }
  }

  /** The writer keeps the buffer's order. */
  lemma {:induction false} CollapseIsSubsequence(s: seq<u32>)
    ensures IsSubsequence(Collapse(s), s)
    decreases |s|
  {
    if |s| > 0 {
      var init := s[..|s| - 1];
      CollapseIsSubsequence(init);
      var c := Collapse(s);
      if |s| >= 2 && s[|s| - 1] == s[|s| - 2] {
        assert s[..|s| - 1] == init;
      } else {
        assert c[..|c| - 1] == Collapse(init);
      }
    }
  }

  /** No two neighbours in a written run are equal, whatever the buffer. */
  lemma {:induction false} CollapseNoAdjacentDuplicates(s: seq<u32>)
    ensures forall i :: 0 < i < |Collapse(s)| ==> Collapse(s)[i - 1] != Collapse(s)[i]
    decreases |s|
  {
    if |s| > 0 {
      var init := s[..|s| - 1];
      CollapseNoAdjacentDuplicates(init);
      if !(|s| >= 2 && s[|s| - 1] == s[|s| - 2]) && |s| >= 2 {
      }
    }
  }

  /** For a sorted buffer the written run is strictly increasing. */
  lemma {:induction false} CollapseSortedStrictlyIncreasing(s: seq<u32>)
    requires Sorted(s)
    ensures StrictlyIncreasing(Collapse(s))
    decreases |s|
  {
    if |s| > 0 {
      var init := s[..|s| - 1];
      CollapseSortedStrictlyIncreasing(init);
      if !(|s| >= 2 && s[|s| - 1] == s[|s| - 2]) && |s| >= 2 {
        var c := Collapse(init);
        CollapseKeepsElems(init);
        forall k | 0 <= k < |c| ensures c[k] < s[|s| - 1] {
          assert c[k] <= c[|c| - 1];
        }
      }
    }
  }

  /** One more key of the buffer is written exactly when it is the first or
      differs from the key before it. */
  lemma CollapseStep(s: seq<u32>, i: nat)
    requires i < |s|
    ensures Collapse(s[..i + 1]) ==
              if i > 0 && s[i] == s[i - 1] then Collapse(s[..i]) else Collapse(s[..i]) + [s[i]]
  {
    assert s[..i + 1][..i] == s[..i];
  }

  /** `write_chunk`: create `fileName` and write every key of the buffer
      that differs from the one before it, as little-endian bytes. */
  method WriteChunk(fs: FileSystem, buffer: seq<u32>, fileName: string) returns (fs': FileSystem)
    ensures fs' == fs[fileName := Encode(Collapse(buffer))]
  {
    var writer: seq<u8> := [];
    var previous: Option<u32> := None;
    for i := 0 to |buffer|
      invariant writer == Encode(Collapse(buffer[..i]))
      invariant previous == if i == 0 then None else Some(buffer[i - 1])
    {
      var number := buffer[i];
      CollapseStep(buffer, i);
      if previous.None? || number != previous.value {
        EncodeSnoc(Collapse(buffer[..i]), number);
        writer := writer + ToLeBytes(number);
      }
      previous := Some(number);
    }
    assert buffer[..|buffer|] == buffer;
    fs' := fs[fileName := writer];
  }

  /** What a run file holds when it was written from a sorted buffer: the
      buffer's keys, ascending and each once. */
  lemma WrittenRun(buffer: seq<u32>)
    requires Sorted(buffer)
    ensures |Encode(Collapse(buffer))| % 4 == 0
    ensures Decode(Encode(Collapse(buffer))) == Collapse(buffer)
    ensures StrictlyIncreasing(Decode(Encode(Collapse(buffer))))
    ensures Elems(Decode(Encode(Collapse(buffer)))) == Elems(buffer)
  {
    DecodeEncode(Collapse(buffer));
    CollapseSortedStrictlyIncreasing(buffer);
    CollapseKeepsElems(buffer);
  }
}

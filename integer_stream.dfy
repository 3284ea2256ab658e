/** The `Integers` iterator (a buffered reader over one opened file and a
    four-byte scratch buffer) and the one-element lookahead
    `Peekable<Integers>` that the merge keeps per run. The opened file is
    represented by its bytes at the time it was opened and the reader's
    position in them. */
module IntegerStream {
  import opened Types
  import opened LittleEndian

  class Integers {
    /** The bytes of the opened file. */
    const source: seq<u8>
    /** How far the buffered reader has consumed `source`. */
    var pos: nat
    /** The `[u8; 4]` that `read_exact` fills. */
    var buffer: seq<u8>
    /** The keys `next` will still yield, in order. */
    ghost var Remaining: seq<u32>

    ghost predicate Valid()
      reads this
    {
      pos <= |source| && |buffer| == 4 && Remaining == Decode(source[pos..])
    }

    /** `Integers::new`: a reader at the start of the file and a zeroed
        buffer. */
    constructor (file: seq<u8>)
      ensures Valid() && source == file
      ensures Remaining == Decode(file)
    {
      source := file;
      pos := 0;
      buffer := [0, 0, 0, 0];
      Remaining := Decode(file);
    }

    /** `Iterator::next`: `read_exact` four bytes and decode them as a
        little-endian word. When fewer than four bytes are left,
        `read_exact` fails after consuming them, the failure is turned into
        `None`, and every later call fails in the same way. */
    method Next() returns (r: Option<u32>)
      requires Valid()
      modifies this
      ensures Valid()
      ensures old(Remaining) == [] ==> r == None && Remaining == []
      ensures old(Remaining) != [] ==>
                r == Some(old(Remaining)[0]) && Remaining == old(Remaining)[1..]
    {
      ghost var rest := source[pos..];
      if |source| - pos >= 4 {
        buffer := source[pos..pos + 4];
        pos := pos + 4;
        assert rest[..4] == buffer && rest[4..] == source[pos..];
        r := Some(FromLeBytes(buffer));
        Remaining := Remaining[1..];
      } else {
        // the partial read lands in the front of the buffer
        buffer := source[pos..] + buffer[|source| - pos..];
        pos := |source|;
        r := None;
        Remaining := [];
      }
    }
  }

  /** `Peekable<Integers>`: `peeked` is `None` when nothing is buffered,
      `Some(Some(v))` when `v` was peeked, and `Some(None)` when the peek
      found the end. */
  class Peekable {
    const iter: Integers
    var peeked: Option<Option<u32>>
    /** The keys this cursor will still yield, the peeked one first. */
    ghost var Pending: seq<u32>

    ghost predicate Valid()
      reads this, iter
    {
      && iter.Valid()
      && (peeked == Some(None) ==> iter.Remaining == [])
      && Pending == match peeked
                    case Some(Some(v)) => [v] + iter.Remaining
                    case _ => iter.Remaining
    }

    /** `Iterator::peekable`. */
    constructor (iter: Integers)
      requires iter.Valid()
      ensures Valid() && this.iter == iter
      ensures Pending == iter.Remaining
    {
      this.iter := iter;
      peeked := None;
      Pending := iter.Remaining;
    }

    /** `Peekable::peek`: the next key without consuming it. */
    method Peek() returns (r: Option<u32>)
      requires Valid()
      modifies this, iter
      ensures Valid() && Pending == old(Pending)
      ensures r == if Pending == [] then None else Some(Pending[0])
    {
      if peeked.None? {
        var v := iter.Next();
        peeked := Some(v);
      }
      r := peeked.value;
    }

    /** `Peekable::next`: the peeked key if there is one, else the
        underlying iterator's next. */
    method Next() returns (r: Option<u32>)
      requires Valid()
      modifies this, iter
      ensures Valid()
      ensures old(Pending) == [] ==> r == None && Pending == []
      ensures old(Pending) != [] ==>
                r == Some(old(Pending)[0]) && Pending == old(Pending)[1..]
    {
      match peeked
      case Some(v) =>
        peeked := None;
        r := v;
        Pending := iter.Remaining;
      case None =>
        r := iter.Next();
        Pending := iter.Remaining;
    }
  }
}

/** The file format: a flat sequence of little-endian 32-bit words with no
    header. `FromLeBytes`/`ToLeBytes` are `u32::from_le_bytes` and
    `u32::to_le_bytes`; `Decode` is what a reader of a whole file sees and
    `Encode` is what a writer of a sequence of keys leaves behind. */
module LittleEndian {
  import opened Types

  /** Dividing by 0x100 twice is dividing by 0x1_0000. */
  lemma DivideTwice(x: nat)
    ensures x / 0x1_0000 == (x / 0x100) / 0x100
  {
    var q1, r1 := x / 0x100, x % 0x100;
    var q2, r2 := q1 / 0x100, q1 % 0x100;
    assert x == 0x1_0000 * q2 + (0x100 * r2 + r1);
  }

  /** Splitting off the low byte of `lo + 0x100 * hi`. */
  lemma SplitLowByte(lo: int, hi: nat)
    requires 0 <= lo < 0x100
    ensures (lo + 0x100 * hi) % 0x100 == lo && (lo + 0x100 * hi) / 0x100 == hi
  {
  }

  /** `u32::from_le_bytes`: the first byte is the least significant and the
      last the most significant. */
  function FromLeBytes(b: seq<u8>): (x: u32)
    requires |b| == 4
    ensures x % 0x100 == b[0] as int && x / 0x100_0000 == b[3] as int
  {
    var hi2: nat := b[2] as int + 0x100 * b[3] as int;
    var hi: nat := b[1] as int + 0x100 * hi2;
    SplitLowByte(b[0] as int, hi);
    SplitLowByte(b[1] as int, hi2);
    SplitLowByte(b[2] as int, b[3] as int);
    DivideTwice(b[0] as int + 0x100 * hi);
    DivideTwice(hi);
    b[0] as int + 0x100 * hi
  }

  /** `u32::to_le_bytes`: four bytes from which `from_le_bytes` recovers the
      key. */
  function ToLeBytes(x: u32): (b: seq<u8>)
    ensures |b| == 4 && FromLeBytes(b) == x
  {
    DivideTwice(x);
    DivideTwice(x / 0x100);
    assert x / 0x100_0000 == (x / 0x1_0000) / 0x100;
    [x % 0x100, (x / 0x100) % 0x100, (x / 0x1_0000) % 0x100, x / 0x100_0000]
  }

  lemma ToFromLeBytes(b: seq<u8>)
    requires |b| == 4
    ensures ToLeBytes(FromLeBytes(b)) == b
  {
    var x := FromLeBytes(b);
    var hi2: nat := b[2] as int + 0x100 * b[3] as int;
    var hi: nat := b[1] as int + 0x100 * hi2;
    SplitLowByte(b[0] as int, hi);
    SplitLowByte(b[1] as int, hi2);
    SplitLowByte(b[2] as int, b[3] as int);
    DivideTwice(x);
    DivideTwice(x / 0x100);
  }

  /** The words a reader gets out of `bytes`: one per complete group of four
      bytes, in file order; a trailing fragment of one to three bytes is
      dropped. */
  function Decode(bytes: seq<u8>): (xs: seq<u32>)
    ensures |xs| == |bytes| / 4
    decreases |bytes|
  {
    if |bytes| < 4 then [] else [FromLeBytes(bytes[..4])] + Decode(bytes[4..])
  }

  /** The bytes a writer produces for `xs`, four per word. */
  function Encode(xs: seq<u32>): (bytes: seq<u8>)
    ensures |bytes| == 4 * |xs|
  {
    if xs == [] then [] else ToLeBytes(xs[0]) + Encode(xs[1..])
  }

  /** Word `k` of a file is decoded from bytes `4k .. 4k+4`. */
  lemma {:induction false} DecodeAt(bytes: seq<u8>, k: nat)
    requires k < |bytes| / 4
    ensures Decode(bytes)[k] == FromLeBytes(bytes[4 * k .. 4 * k + 4])
  {
    if k > 0 {
      DecodeAt(bytes[4..], k - 1);
      assert bytes[4..][4 * (k - 1) .. 4 * (k - 1) + 4] == bytes[4 * k .. 4 * k + 4];
    }
  }

  /** Reading back what was written gives the same keys. */
  lemma {:induction false} DecodeEncode(xs: seq<u32>)
    ensures Decode(Encode(xs)) == xs
  {
    if xs != [] {
      var e := Encode(xs);
      assert e[..4] == ToLeBytes(xs[0]);
      assert e[4..] == Encode(xs[1..]);
      DecodeEncode(xs[1..]);
    }
  }

  /** Writing back what was read reproduces the file up to its last complete
      word. */
  lemma {:induction false} EncodeDecode(bytes: seq<u8>)
    ensures Encode(Decode(bytes)) == bytes[..|bytes| / 4 * 4]
    decreases |bytes|
  {
    if |bytes| >= 4 {
      var d := Decode(bytes);
      assert d[1..] == Decode(bytes[4..]);
      EncodeDecode(bytes[4..]);
      ToFromLeBytes(bytes[..4]);
      assert bytes[4..][..|bytes[4..]| / 4 * 4] == bytes[4..|bytes| / 4 * 4];
      assert bytes[..|bytes| / 4 * 4] == bytes[..4] + bytes[4..|bytes| / 4 * 4];
    }
  }

  /** A trailing fragment shorter than a word is not an error: it is as if the
      file ended at its last complete word. */
  lemma DecodeDropsFragment(bytes: seq<u8>, fragment: seq<u8>)
    requires |bytes| % 4 == 0 && |fragment| < 4
    ensures Decode(bytes + fragment) == Decode(bytes)
  {
    var whole := bytes + fragment;
    var n := |bytes| / 4;
    assert |bytes| == 4 * n;
    assert |whole| / 4 == n;
    assert whole[..4 * n] == bytes;
    EncodeDecode(whole);
    DecodeEncode(Decode(whole));
  }

  /** A file whose length is a multiple of four is determined by its words. */
  lemma DecodeInjective(a: seq<u8>, b: seq<u8>)
    requires |a| % 4 == 0 && |b| % 4 == 0 && Decode(a) == Decode(b)
    ensures a == b
  {
    EncodeDecode(a);
    EncodeDecode(b);
  }

  lemma {:induction false} EncodeAppend(xs: seq<u32>, ys: seq<u32>)
    ensures Encode(xs + ys) == Encode(xs) + Encode(ys)
  {
    if xs != [] {
      assert (xs + ys)[1..] == xs[1..] + ys;
      EncodeAppend(xs[1..], ys);
    } else {
      assert xs + ys == ys;
    }
  }

  /** Writing one more key appends its four bytes. */
  lemma EncodeSnoc(xs: seq<u32>, x: u32)
    ensures Encode(xs + [x]) == Encode(xs) + ToLeBytes(x)
  {
    EncodeAppend(xs, [x]);
    assert Encode([x]) == ToLeBytes(x) + Encode([]);
  }
}

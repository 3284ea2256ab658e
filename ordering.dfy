/** Orderings of key sequences, the sets they stand for, and the chunk
    sorter (`par_sort_unstable` on a buffer of keys). */
module Ordering {
  import opened Types

  /** Non-decreasing: what a sort leaves in a buffer. */
  predicate Sorted(s: seq<u32>) {
    forall i, j :: 0 <= i < j < |s| ==> s[i] <= s[j]
  }

  /** Ascending with no repeated key: what a run and the merged output are. */
  predicate StrictlyIncreasing(s: seq<u32>) {
    forall i, j :: 0 <= i < j < |s| ==> s[i] < s[j]
  }

  /** The set of keys a sequence holds. */
  ghost function Elems(s: seq<u32>): set<u32> {
    set x | x in s
  }

  /** Appending a key adds it to the keys. */
  lemma ElemsSnoc(s: seq<u32>, x: u32)
    ensures Elems(s + [x]) == Elems(s) + {x}
  {
  }

  /** Every key held by any of `runs`. */
  ghost function UnionOf(runs: seq<seq<u32>>): set<u32> {
    set j, k | 0 <= j < |runs| && 0 <= k < |runs[j]| :: runs[j][k]
  }

  lemma UnionOfAppend(runs: seq<seq<u32>>, run: seq<u32>)
    ensures UnionOf(runs + [run]) == UnionOf(runs) + Elems(run)
  {
    var all := runs + [run];
    forall x | x in Elems(run) ensures x in UnionOf(all) {
      var k :| 0 <= k < |run| && run[k] == x;
      assert all[|runs|][k] == x;
    }
    forall x | x in UnionOf(runs) ensures x in UnionOf(all) {
      var j, k :| 0 <= j < |runs| && 0 <= k < |runs[j]| && runs[j][k] == x;
      assert all[j][k] == x;
    }
  }

  /** A strictly increasing sequence is the only one of its kind holding its
      set of keys: the ascending listing of a set is unique. */
  lemma {:induction false} StrictlyIncreasingUnique(a: seq<u32>, b: seq<u32>)
    requires StrictlyIncreasing(a) && StrictlyIncreasing(b)
    requires Elems(a) == Elems(b)
    ensures a == b
    decreases |a|
  {
    if a == [] {
      assert forall k :: 0 <= k < |b| ==> b[k] in Elems(b);
    } else {
      assert a[0] in Elems(a);
      assert b != [];
      assert b[0] in Elems(b);
      assert a[0] == b[0];
      assert Elems(a[1..]) == Elems(a) - {a[0]} by {
        assert a == [a[0]] + a[1..];
      }
      assert Elems(b[1..]) == Elems(b) - {b[0]} by {
        assert b == [b[0]] + b[1..];
      }
      StrictlyIncreasingUnique(a[1..], b[1..]);
      assert a == [a[0]] + a[1..] && b == [b[0]] + b[1..];
    }
  }

  /** Insertion of one key into a sorted buffer. */
  function Insert(x: u32, s: seq<u32>): (r: seq<u32>)
    requires Sorted(s)
    ensures Sorted(r)
    ensures multiset(r) == multiset(s) + multiset{x}
  {
    if s == [] || x <= s[0] then
      [x] + s
    else
      var rest := Insert(x, s[1..]);
      InsertBehindHead(x, s, rest);
      [s[0]] + rest
  }

  /** When `x` goes behind the head of `s`, the head stays in front of the
      insertion into the tail. */
  lemma InsertBehindHead(x: u32, s: seq<u32>, rest: seq<u32>)
    requires Sorted(s) && s != [] && s[0] < x
    requires Sorted(rest) && multiset(rest) == multiset(s[1..]) + multiset{x}
    ensures Sorted([s[0]] + rest)
    ensures multiset([s[0]] + rest) == multiset(s) + multiset{x}
  {
    assert s == [s[0]] + s[1..];
    forall k | 0 <= k < |rest| ensures s[0] <= rest[k] {
      assert rest[k] in multiset(rest);
      if rest[k] != x {
        assert rest[k] in s[1..];
      }
    }
  }

  /** The chunk sorter: the buffer's keys in ascending order. Which of two
      equal keys ends up first is unobservable for plain integers, so the
      lack of stability does not show. */
  function SortUnstable(s: seq<u32>): (r: seq<u32>)
    ensures Sorted(r)
    ensures multiset(r) == multiset(s)
  {
    if s == [] then []
    else
      assert s == [s[0]] + s[1..];
      Insert(s[0], SortUnstable(s[1..]))
  }

  /** Sorting keeps the set of keys. */
  lemma SortKeepsElems(s: seq<u32>)
    ensures Elems(SortUnstable(s)) == Elems(s)
  {
    var r := SortUnstable(s);
    forall x ensures x in r <==> x in s {
      assert x in r <==> x in multiset(r);
    }
  }
}

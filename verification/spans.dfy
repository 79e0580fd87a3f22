/** Match slices and their ordering.

    A slice is the `(start, end)` pair a regular-expression match reports:
    the matched text is `text[start:end]`. Slices are ordered as Python
    orders tuples: by start, then by end. */
module Spans {

  /** One match slice: the half-open range `[start, end)` of a line. */
  datatype Slice = Slice(start: int, end: int)

  function Max(a: int, b: int): int {
    if a < b then b else a
  }

  /** Lexicographic order on `(start, end)` tuples. */
  predicate Le(a: Slice, b: Slice) {
    a.start < b.start || (a.start == b.start && a.end <= b.end)
  }

  predicate Sorted(s: seq<Slice>) {
    forall i, j :: 0 <= i < j < |s| ==> Le(s[i], s[j])
  }

  /** No slice ends before it starts (zero-length slices are allowed). */
  predicate WellFormed(s: seq<Slice>) {
    forall k :: 0 <= k < |s| ==> s[k].start <= s[k].end
  }

  /** Dropping the last slice of a sorted, well-formed sequence keeps it
      sorted and well formed, and the dropped slice comes last in the order. */
  lemma DropLast(s: seq<Slice>)
    requires Sorted(s) && WellFormed(s) && s != []
    ensures Sorted(s[..|s| - 1]) && WellFormed(s[..|s| - 1])
    ensures s[|s| - 1].start <= s[|s| - 1].end
    ensures |s| > 1 ==> Le(s[..|s| - 1][|s| - 2], s[|s| - 1])
  {
  }

  /** Every slice starts at or after `lo`, ends at or before `hi`, and does
      not end before it starts (zero-length slices are allowed). */
  predicate Within(s: seq<Slice>, lo: int, hi: int) {
    forall k :: 0 <= k < |s| ==> lo <= s[k].start <= s[k].end <= hi
  }

  /** Inserts `x` into a sorted sequence, keeping it sorted. */
  function Insert(x: Slice, s: seq<Slice>): (r: seq<Slice>)
    requires Sorted(s)
    ensures Sorted(r)
    ensures multiset(r) == multiset(s) + multiset{x}
    ensures r[0] == x || (s != [] && r[0] == s[0])
  {
    if s == [] then [x]
    else if Le(x, s[0]) then [x] + s
    else
      assert s == [s[0]] + s[1..];
      var t := Insert(x, s[1..]);
      assert Le(s[0], t[0]) by {
        if t[0] != x {
          assert Le(s[0], s[1..][0]);
        }
      }
      ConsSorted(s[0], t);
      [s[0]] + t
  }

  /** A slice ordered before the head of a sorted sequence can go in front of it. */
  lemma ConsSorted(a: Slice, t: seq<Slice>)
    requires Sorted(t)
    requires t != [] ==> Le(a, t[0])
    ensures Sorted([a] + t)
  {
    var r := [a] + t;
    forall i, j | 0 <= i < j < |r|
      ensures Le(r[i], r[j])
    {
      if i == 0 {
        assert r[j] == t[j - 1];
        assert Le(t[0], t[j - 1]) || j == 1;
      } else {
        assert r[i] == t[i - 1] && r[j] == t[j - 1];
      }
    }
  }

  /** Python's `sorted` on a list of slices: an ordered permutation. */
  function SortSlices(s: seq<Slice>): (r: seq<Slice>)
    ensures Sorted(r)
    ensures multiset(r) == multiset(s)
  {
    if s == [] then []
    else
      assert s == [s[0]] + s[1..];
      Insert(s[0], SortSlices(s[1..]))
  }

  /** Sorting does not move a slice out of its bounds and keeps the length. */
  lemma SortWithin(s: seq<Slice>, lo: int, hi: int)
    requires Within(s, lo, hi)
    ensures Within(SortSlices(s), lo, hi)
    ensures |SortSlices(s)| == |s|
  {
    var r := SortSlices(s);
    assert |r| == |multiset(r)| == |multiset(s)| == |s|;
    forall k | 0 <= k < |r|
      ensures lo <= r[k].start <= r[k].end <= hi
    {
      assert r[k] in multiset(r);
      var m :| 0 <= m < |s| && s[m] == r[k];
    }
  }

  /** A sequence that is already sorted comes back from `sorted` unchanged. */
  lemma {:induction false} SortSorted(s: seq<Slice>)
    requires Sorted(s)
    ensures SortSlices(s) == s
  {
    if s != [] {
      SortSorted(s[1..]);
      if |s| > 1 {
        assert Le(s[0], s[1..][0]);
      }
    }
  }
}

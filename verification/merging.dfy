/** Merging of sorted match slices.

    The merge walks the sorted slices once. A slice whose start is at or
    before the end of the last merged slice extends that slice (its end
    becomes the larger of the two ends); any other slice opens a new
    merged slice. Because the test is `start <= end`, touching slices
    merge as well as overlapping ones. */
module Merging {
  import opened Spans

  /** Consecutive merged slices are strictly apart: no overlap, no touching. */
  predicate Disjoint(m: seq<Slice>) {
    forall i, j :: 0 <= i < j < |m| ==> m[i].end < m[j].start
  }

  /** The slice `inner` lies inside the slice `outer`. */
  predicate Inside(inner: Slice, outer: Slice) {
    outer.start <= inner.start && inner.end <= outer.end
  }

  /** Position `k` lies in the slice `x`. */
  predicate InSlice(x: Slice, k: int) {
    x.start <= k < x.end
  }

  /** Some slice of `s` covers position `k`. */
  predicate Covered(s: seq<Slice>, k: int) {
    exists i :: 0 <= i < |s| && InSlice(s[i], k)
  }

  /** One step of the merge loop: extend the last merged slice in place, or append. */
  function MergeStep(acc: seq<Slice>, x: Slice): seq<Slice> {
    if |acc| > 0 && x.start <= acc[|acc| - 1].end then
      acc[|acc| - 1 := Slice(acc[|acc| - 1].start, Max(acc[|acc| - 1].end, x.end))]
    else
      acc + [x]
  }

  /** The merge loop run over the whole of `s`. */
  function Merge(s: seq<Slice>): (r: seq<Slice>)
    ensures |r| <= |s|
    ensures |r| == 0 <==> |s| == 0
  {
    if s == [] then [] else MergeStep(Merge(s[..|s| - 1]), s[|s| - 1])
  }

  lemma CoveredSnoc(p: seq<Slice>, x: Slice, k: int)
    ensures Covered(p + [x], k) <==> Covered(p, k) || InSlice(x, k)
  {
    var s := p + [x];
    if Covered(s, k) && !InSlice(x, k) {
      var i :| 0 <= i < |s| && InSlice(s[i], k);
      assert s[i] == p[i];
    }
    if Covered(p, k) {
      var i :| 0 <= i < |p| && InSlice(p[i], k);
      assert s[i] == p[i];
    }
    if InSlice(x, k) {
      assert s[|p|] == x;
    }
  }

  /** Slices stay within the bounds of the slices they are merged from. */
  lemma {:induction false} MergeWithin(s: seq<Slice>, lo: int, hi: int)
    requires Within(s, lo, hi)
    ensures Within(Merge(s), lo, hi)
  {
    if s != [] {
      var p := s[..|s| - 1];
      assert Within(p, lo, hi);
      MergeWithin(p, lo, hi);
    }
  }

  /** One merge step keeps the merged slices well formed and strictly apart,
      provided the new slice starts no earlier than the last merged one. */
  lemma StepShape(m: seq<Slice>, x: Slice)
    requires Disjoint(m) && WellFormed(m)
    requires x.start <= x.end
    requires |m| > 0 ==> m[|m| - 1].start <= x.start
    ensures Disjoint(MergeStep(m, x)) && WellFormed(MergeStep(m, x))
    ensures MergeStep(m, x)[|MergeStep(m, x)| - 1].start <= x.start
  {
    var r := MergeStep(m, x);
    if |m| > 0 && x.start <= m[|m| - 1].end {
      var n := |m| - 1;
      assert r[n].start == m[n].start && r[n].end >= m[n].end;
      forall i, j | 0 <= i < j < |r|
        ensures r[i].end < r[j].start
      {
        assert r[i] == m[i];
      }
    } else {
      assert r == m + [x];
      forall i, j | 0 <= i < j < |r|
        ensures r[i].end < r[j].start
      {
        assert r[i] == m[i];
        if j == |m| {
          assert m[i].end <= m[|m| - 1].end;
        } else {
          assert r[j] == m[j];
        }
      }
    }
  }

  /** On sorted, well-formed input the merged slices are well formed and
      pairwise strictly apart, and the last merged slice starts no later than
      the last input slice. */
  lemma {:induction false} MergeShape(s: seq<Slice>)
    requires Sorted(s)
    requires WellFormed(s)
    ensures Disjoint(Merge(s)) && WellFormed(Merge(s))
    ensures s != [] ==> Merge(s)[|Merge(s)| - 1].start <= s[|s| - 1].start
  {
    if s != [] {
      var p, x := s[..|s| - 1], s[|s| - 1];
      DropLast(s);
      MergeShape(p);
      StepShape(Merge(p), x);
    }
  }

  /** One merge step covers what was covered before plus the new slice,
      provided the new slice starts no earlier than the last merged one. */
  lemma StepCovers(m: seq<Slice>, x: Slice, k: int)
    requires |m| > 0 ==> m[|m| - 1].start <= x.start
    ensures Covered(MergeStep(m, x), k) <==> Covered(m, k) || InSlice(x, k)
  {
    if |m| > 0 && x.start <= m[|m| - 1].end {
      var n := |m| - 1;
      var last := m[n];
      var grown := Slice(last.start, Max(last.end, x.end));
      assert m == m[..n] + [last];
      assert MergeStep(m, x) == m[..n] + [grown];
      CoveredSnoc(m[..n], last, k);
      CoveredSnoc(m[..n], grown, k);
    } else {
      CoveredSnoc(m, x, k);
    }
  }

  /** Merging keeps the covered positions: every position in a merged slice
      is covered by an input slice, and the other way round. */
  lemma {:induction false} MergeCovers(s: seq<Slice>, k: int)
    requires Sorted(s)
    requires WellFormed(s)
    ensures Covered(Merge(s), k) <==> Covered(s, k)
  {
    if s != [] {
      var p, x := s[..|s| - 1], s[|s| - 1];
      assert s == p + [x];
      DropLast(s);
      CoveredSnoc(p, x, k);
      MergeCovers(p, k);
      MergeShape(p);
      StepCovers(Merge(p), x, k);
    }
  }

  /** Merging keeps the set of covered positions, for every position. */
  lemma MergePositions(s: seq<Slice>)
    requires Sorted(s)
    requires WellFormed(s)
    ensures forall k :: Covered(Merge(s), k) <==> Covered(s, k)
  {
    forall k {
      MergeCovers(s, k);
    }
  }

  /** The slice `x` lies inside some slice of `m`. */
  predicate Absorbed(x: Slice, m: seq<Slice>) {
    exists j :: 0 <= j < |m| && Inside(x, m[j])
  }

  /** Every input slice lies inside some merged slice: a slice contained in
      another, or overlapping it, collapses into it. */
  lemma {:induction false} MergeContains(s: seq<Slice>)
    requires Sorted(s)
    requires WellFormed(s)
    ensures forall i :: 0 <= i < |s| ==> Absorbed(s[i], Merge(s))
  {
    if s != [] {
      var p, x := s[..|s| - 1], s[|s| - 1];
      DropLast(s);
      MergeContains(p);
      MergeShape(p);
      var m := Merge(p);
      var r := Merge(s);
      StepContains(m, x);
      forall i | 0 <= i < |s|
        ensures Absorbed(s[i], r)
      {
        if i < |s| - 1 {
          assert s[i] == p[i] && Absorbed(p[i], m);
          var j :| 0 <= j < |m| && Inside(p[i], m[j]);
          assert Inside(m[j], r[j]);
        }
      }
    }
  }

  /** One merge step only grows the merged slices, and the new slice ends up
      inside one of them. */
  lemma StepContains(m: seq<Slice>, x: Slice)
    requires |m| > 0 ==> m[|m| - 1].start <= x.start
    ensures |MergeStep(m, x)| >= |m|
    ensures forall j :: 0 <= j < |m| ==> Inside(m[j], MergeStep(m, x)[j])
    ensures Absorbed(x, MergeStep(m, x))
  {
    var r := MergeStep(m, x);
    if |m| > 0 && x.start <= m[|m| - 1].end {
      assert Inside(x, r[|m| - 1]);
    } else {
      assert Inside(x, r[|m|]);
    }
  }

  /** Some slice of `s` starts at `v`. */
  predicate HasStart(s: seq<Slice>, v: int) {
    exists i :: 0 <= i < |s| && s[i].start == v
  }

  /** Some slice of `s` ends at `v`. */
  predicate HasEnd(s: seq<Slice>, v: int) {
    exists i :: 0 <= i < |s| && s[i].end == v
  }

  /** Every slice of `m` starts at a start and ends at an end of a slice of `s`. */
  predicate EndsFrom(m: seq<Slice>, s: seq<Slice>) {
    forall j :: 0 <= j < |m| ==> HasStart(s, m[j].start) && HasEnd(s, m[j].end)
  }

  /** Appending to the input keeps every start and end it already had. */
  lemma EndsFromSnoc(m: seq<Slice>, p: seq<Slice>, x: Slice)
    requires EndsFrom(m, p)
    ensures EndsFrom(m, p + [x])
  {
    var s := p + [x];
    forall j | 0 <= j < |m|
      ensures HasStart(s, m[j].start) && HasEnd(s, m[j].end)
    {
      var a :| 0 <= a < |p| && p[a].start == m[j].start;
      var b :| 0 <= b < |p| && p[b].end == m[j].end;
      assert s[a] == p[a] && s[b] == p[b];
    }
  }

  /** The merge invents no boundary: every merged slice starts where an input
      slice starts and ends where an input slice ends. */
  lemma {:induction false} MergeEnds(s: seq<Slice>)
    ensures EndsFrom(Merge(s), s)
  {
    if s != [] {
      var p, x := s[..|s| - 1], s[|s| - 1];
      assert s == p + [x];
      MergeEnds(p);
      var m := Merge(p);
      EndsFromSnoc(m, p, x);
      var r := Merge(s);
      assert r == MergeStep(m, x);
      assert HasStart(s, x.start) && HasEnd(s, x.end) by {
        assert s[|s| - 1] == x;
      }
      forall j | 0 <= j < |r|
        ensures HasStart(s, r[j].start) && HasEnd(s, r[j].end)
      {
        if j < |m| && r[j] != m[j] {
          assert r[j] == Slice(m[j].start, Max(m[j].end, x.end));
        }
      }
    }
  }

  /** A list that is already merged is left unchanged by the merge. */
  lemma {:induction false} MergeDisjoint(m: seq<Slice>)
    requires Disjoint(m)
    ensures Merge(m) == m
  {
    if m != [] {
      var p := m[..|m| - 1];
      MergeDisjoint(p);
      assert p + [m[|m| - 1]] == m;
    }
  }

  /** Merging is idempotent on sorted, well-formed input. */
  lemma MergeIdempotent(s: seq<Slice>)
    requires Sorted(s)
    requires WellFormed(s)
    ensures Merge(Merge(s)) == Merge(s)
  {
    MergeShape(s);
    MergeDisjoint(Merge(s));
  }

  /** Disjoint well-formed slices are in ascending order. */
  lemma DisjointSorted(m: seq<Slice>)
    requires Disjoint(m)
    requires WellFormed(m)
    ensures Sorted(m)
  {
    forall i, j | 0 <= i < j < |m|
      ensures Le(m[i], m[j])
    {
      assert m[i].start <= m[i].end < m[j].start;
    }
  }

  /** The whole sort-then-merge stage is idempotent: feeding its output back
      through it returns the same merged slices. */
  lemma SortMergeIdempotent(s: seq<Slice>, n: int)
    requires Within(s, 0, n)
    ensures Merge(SortSlices(Merge(SortSlices(s)))) == Merge(SortSlices(s))
  {
    var sorted := SortSlices(s);
    SortWithin(s, 0, n);
    MergeShape(sorted);
    var m := Merge(sorted);
    DisjointSorted(m);
    SortSorted(m);
    MergeDisjoint(m);
  }

  /** `m` is a faithful merge of `s`: the same positions are covered, every
      slice of `s` lies inside a slice of `m`, and every slice of `m` starts
      where a slice of `s` starts and ends where one ends, so the merge adds
      no slice of its own, zero-length or otherwise. */
  ghost predicate MergedFrom(m: seq<Slice>, s: seq<Slice>) {
    && (forall k :: Covered(m, k) <==> Covered(s, k))
    && (forall i :: 0 <= i < |s| ==> Absorbed(s[i], m))
    && EndsFrom(m, s)
  }

  /** Sorting keeps the slices, hence the covered positions. */
  lemma SortCovers(s: seq<Slice>)
    ensures forall k :: Covered(SortSlices(s), k) <==> Covered(s, k)
  {
    var sorted := SortSlices(s);
    forall k
      ensures Covered(sorted, k) <==> Covered(s, k)
    {
      if Covered(sorted, k) {
        var i :| 0 <= i < |sorted| && InSlice(sorted[i], k);
        assert sorted[i] in multiset(sorted);
        var j :| 0 <= j < |s| && s[j] == sorted[i];
      }
      if Covered(s, k) {
        var i :| 0 <= i < |s| && InSlice(s[i], k);
        assert s[i] in multiset(s);
        var j :| 0 <= j < |sorted| && sorted[j] == s[i];
      }
    }
  }

  /** Sorting keeps the slices, so a slice absorbed by the merge of the
      sorted slices is one of the original slices too. */
  lemma SortAbsorbed(s: seq<Slice>, m: seq<Slice>)
    requires forall i :: 0 <= i < |SortSlices(s)| ==> Absorbed(SortSlices(s)[i], m)
    ensures forall i :: 0 <= i < |s| ==> Absorbed(s[i], m)
  {
    var sorted := SortSlices(s);
    forall i | 0 <= i < |s|
      ensures Absorbed(s[i], m)
    {
      assert s[i] in multiset(s);
      var j :| 0 <= j < |sorted| && sorted[j] == s[i];
    }
  }

  /** Sorting keeps the slices, hence their starts and ends. */
  lemma SortEnds(s: seq<Slice>, m: seq<Slice>)
    requires EndsFrom(m, SortSlices(s))
    ensures EndsFrom(m, s)
  {
    var sorted := SortSlices(s);
    forall j | 0 <= j < |m|
      ensures HasStart(s, m[j].start) && HasEnd(s, m[j].end)
    {
      var a :| 0 <= a < |sorted| && sorted[a].start == m[j].start;
      var b :| 0 <= b < |sorted| && sorted[b].end == m[j].end;
      assert sorted[a] in multiset(s) && sorted[b] in multiset(s);
      var a' :| 0 <= a' < |s| && s[a'] == sorted[a];
      var b' :| 0 <= b' < |s| && s[b'] == sorted[b];
    }
  }

  /** The sort-then-merge stage on slices inside `[0, n]`: the result lies in
      `[0, n]`, its slices are strictly apart, and it is a faithful merge. */
  lemma SortMerge(s: seq<Slice>, n: int)
    requires Within(s, 0, n)
    ensures Within(Merge(SortSlices(s)), 0, n)
    ensures Disjoint(Merge(SortSlices(s)))
    ensures MergedFrom(Merge(SortSlices(s)), s)
  {
    var sorted := SortSlices(s);
    SortWithin(s, 0, n);
    MergeShape(sorted);
    MergeWithin(sorted, 0, n);
    MergePositions(sorted);
    MergeContains(sorted);
    SortCovers(s);
    SortAbsorbed(s, Merge(sorted));
    MergeEnds(sorted);
    SortEnds(s, Merge(sorted));
  }

  /** The merge test is `<=`: two slices become one exactly when the
      second starts at or before the end of the first, touching included. */
  lemma MergeTwo(a: Slice, b: Slice)
    ensures |Merge([a, b])| == 1 <==> b.start <= a.end
    ensures b.start <= a.end ==> Merge([a, b]) == [Slice(a.start, Max(a.end, b.end))]
    ensures a.end < b.start ==> Merge([a, b]) == [a, b]
  {
  }

  /** A merge cannot add a slice of its own: a zero-length slice where no
      match starts is not a faithful merge, although it covers no position. */
  lemma NoStraySlice()
    ensures !MergedFrom([Slice(1, 2), Slice(4, 4)], [Slice(1, 2)])
  {
    var m := [Slice(1, 2), Slice(4, 4)];
    assert !HasStart([Slice(1, 2)], m[1].start);
    assert !EndsFrom(m, [Slice(1, 2)]);
  }

  /** Touching slices merge: `(0,3)` and `(3,6)` become `(0,6)`. */
  lemma MergeTouching()
    ensures Merge([Slice(0, 3), Slice(3, 6)]) == [Slice(0, 6)]
  {
  }

  /** A one-position gap keeps slices apart: `(0,3)` and `(4,6)` stay two entries. */
  lemma MergeGap()
    ensures Merge([Slice(0, 3), Slice(4, 6)]) == [Slice(0, 3), Slice(4, 6)]
  {
  }

  /** A contained slice collapses: `(2,8)` and `(3,5)` become `(2,8)`. */
  lemma MergeContained()
    ensures Merge([Slice(2, 8), Slice(3, 5)]) == [Slice(2, 8)]
  {
  }

  /** Overlapping slices merge: `(1,3)` and `(2,4)` become `(1,4)`. */
  lemma MergeOverlapping()
    ensures Merge([Slice(1, 3), Slice(2, 4)]) == [Slice(1, 4)]
  {
  }

  /** The merge loop over the sorted slices, updating the last merged slice
      in place or appending a new one. */
  method MergeSlices(slices: seq<Slice>) returns (merged: seq<Slice>)
    ensures merged == Merge(slices)
    ensures Sorted(slices) && WellFormed(slices) ==>
      Disjoint(merged) && forall k :: Covered(merged, k) <==> Covered(slices, k)
    ensures EndsFrom(merged, slices)
  {
    merged := [];
    for i := 0 to |slices|
      invariant merged == Merge(slices[..i])
    {
      var x := slices[i];
      if |merged| > 0 && x.start <= merged[|merged| - 1].end {
        var last := merged[|merged| - 1];
        merged := merged[|merged| - 1 := Slice(last.start, Max(last.end, x.end))];
      } else {
        merged := merged + [x];
      }
      assert slices[..i + 1][..i] == slices[..i];
    }
    assert slices[..|slices|] == slices;
    if Sorted(slices) && WellFormed(slices) {
      MergeShape(slices);
      MergePositions(slices);
    }
    MergeEnds(slices);
  }
}

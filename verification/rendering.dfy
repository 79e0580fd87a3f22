/** Rendering a line with its merged slices highlighted.

    The renderer walks the merged slices in order. Text before a slice that
    has not been emitted yet is copied verbatim; the slice's own text is
    emitted between the highlight colour and the reset code; after the last
    slice the rest of the line is copied. The pieces are joined into one
    string at the end. */
module Rendering {
  import opened Spans
  import opened Merging

  /** One entry of the list of output pieces: a piece of the line, or a
      colour code inserted around a highlighted slice. */
  datatype Piece = Verbatim(s: string) | Marker(s: string)

  /** A colour code to insert into the line at text offset `at`. */
  datatype Mark = Mark(code: string, at: int)

  /** Slices that the renderer can take: inside `[lo, hi]`, well formed and
      strictly apart, as the merge produces them. */
  predicate Fits(ms: seq<Slice>, lo: int, hi: int) {
    Within(ms, lo, hi) && Disjoint(ms)
  }

  /** `"".join(pieces)`. */
  function Concat(ps: seq<Piece>): string {
    if ps == [] then "" else ps[0].s + Concat(ps[1..])
  }

  /** The pieces of the line only, with every colour code left out. */
  function Strip(ps: seq<Piece>): string {
    if ps == [] then "" else (if ps[0].Verbatim? then ps[0].s else "") + Strip(ps[1..])
  }

  /** The pieces emitted for the slices `ms` when the line has been copied up
      to offset `prev`. */
  function RenderFrom(text: string, ms: seq<Slice>, prev: int, color: string, reset: string): seq<Piece>
    requires 0 <= prev <= |text|
    requires Fits(ms, prev, |text|)
    decreases |ms|
  {
    if ms == [] then
      if prev < |text| then [Verbatim(text[prev..])] else []
    else
      var m := ms[0];
      assert Fits(ms[1..], m.end, |text|);
      (if prev < m.start then [Verbatim(text[prev..m.start])] else [])
      + [Marker(color), Verbatim(text[m.start..m.end]), Marker(reset)]
      + RenderFrom(text, ms[1..], m.end, color, reset)
  }

  /** The pieces emitted for the whole line. */
  function Render(text: string, ms: seq<Slice>, color: string, reset: string): seq<Piece>
    requires Fits(ms, 0, |text|)
  {
    RenderFrom(text, ms, 0, color, reset)
  }

  /** The colour codes the highlighting of `ms` calls for: `color` at the
      start of each slice, `reset` at its end. */
  function Boundaries(ms: seq<Slice>, color: string, reset: string): (r: seq<Mark>)
    ensures |r| == 2 * |ms|
  {
    if ms == [] then []
    else [Mark(color, ms[0].start), Mark(reset, ms[0].end)] + Boundaries(ms[1..], color, reset)
  }

  /** Marks at offsets inside `[lo, hi]`, in ascending order. */
  predicate MarksFit(marks: seq<Mark>, lo: int, hi: int) {
    marks == [] || (lo <= marks[0].at <= hi && MarksFit(marks[1..], marks[0].at, hi))
  }

  /** Reference definition of highlighting: the line from offset `from` on,
      with each mark's code inserted at the mark's offset and nothing else
      changed. */
  function Weave(text: string, marks: seq<Mark>, from: int): string
    requires 0 <= from <= |text|
    requires MarksFit(marks, from, |text|)
    decreases |marks|
  {
    if marks == [] then text[from..]
    else text[from..marks[0].at] + marks[0].code + Weave(text, marks[1..], marks[0].at)
  }

  /** The three pieces emitted for one highlighted slice. */
  lemma HighlightPieces(color: string, t: string, reset: string)
    ensures Strip([Marker(color), Verbatim(t), Marker(reset)]) == t
    ensures Concat([Marker(color), Verbatim(t), Marker(reset)]) == color + t + reset
  {
    var mid := [Marker(color), Verbatim(t), Marker(reset)];
    assert mid[1..] == [Verbatim(t), Marker(reset)];
    assert mid[1..][1..] == [Marker(reset)];
    assert mid[1..][1..][1..] == [];
    assert Concat(mid[1..][1..]) == reset + "" == reset;
    assert Strip(mid[1..][1..]) == "";
    assert Concat(mid[1..]) == t + reset;
    assert Strip(mid[1..]) == t + "" == t;
    assert Strip(mid) == "" + t == t;
  }

  lemma {:induction false} ConcatAppend(a: seq<Piece>, b: seq<Piece>)
    ensures Concat(a + b) == Concat(a) + Concat(b)
  {
    if a == [] {
      assert a + b == b;
    } else {
      assert (a + b)[0] == a[0];
      assert (a + b)[1..] == a[1..] + b;
      ConcatAppend(a[1..], b);
    }
  }

  lemma {:induction false} StripAppend(a: seq<Piece>, b: seq<Piece>)
    ensures Strip(a + b) == Strip(a) + Strip(b)
  {
    if a == [] {
      assert a + b == b;
    } else {
      assert (a + b)[0] == a[0];
      assert (a + b)[1..] == a[1..] + b;
      StripAppend(a[1..], b);
    }
  }

  /** The codes for slices that fit are in ascending order inside the bounds. */
  lemma {:induction false} BoundariesFit(ms: seq<Slice>, lo: int, hi: int, color: string, reset: string)
    requires Fits(ms, lo, hi)
    ensures MarksFit(Boundaries(ms, color, reset), lo, hi)
  {
    if ms != [] {
      assert Fits(ms[1..], ms[0].end, hi);
      BoundariesFit(ms[1..], ms[0].end, hi, color, reset);
      var b := Boundaries(ms, color, reset);
      assert b[1..] == [Mark(reset, ms[0].end)] + Boundaries(ms[1..], color, reset);
      assert b[1..][1..] == Boundaries(ms[1..], color, reset);
    }
  }

  /** The line from `a` on, cut at `b` and `c`. */
  lemma CutText(text: string, a: int, b: int, c: int)
    requires 0 <= a <= b <= c <= |text|
    ensures text[a..] == text[a..b] + text[b..c] + text[c..]
  {
  }

  /** One step of the renderer: the gap before the first slice, the
      highlighted slice, then the pieces for the remaining slices. */
  lemma RenderFirst(text: string, ms: seq<Slice>, prev: int, color: string, reset: string)
    requires 0 <= prev <= |text|
    requires Fits(ms, prev, |text|)
    requires ms != []
    ensures Fits(ms[1..], ms[0].end, |text|)
    ensures prev <= ms[0].start <= ms[0].end <= |text|
    ensures Concat(RenderFrom(text, ms, prev, color, reset))
         == text[prev..ms[0].start] + (color + text[ms[0].start..ms[0].end] + reset)
          + Concat(RenderFrom(text, ms[1..], ms[0].end, color, reset))
    ensures Strip(RenderFrom(text, ms, prev, color, reset))
         == text[prev..ms[0].start] + text[ms[0].start..ms[0].end]
          + Strip(RenderFrom(text, ms[1..], ms[0].end, color, reset))
  {
    var m := ms[0];
    assert Fits(ms[1..], m.end, |text|);
    var gap := if prev < m.start then [Verbatim(text[prev..m.start])] else [];
    var mid := [Marker(color), Verbatim(text[m.start..m.end]), Marker(reset)];
    var rest := RenderFrom(text, ms[1..], m.end, color, reset);
    assert RenderFrom(text, ms, prev, color, reset) == gap + mid + rest;
    ConcatAppend(gap + mid, rest);
    ConcatAppend(gap, mid);
    StripAppend(gap + mid, rest);
    StripAppend(gap, mid);
    HighlightPieces(color, text[m.start..m.end], reset);
    assert Concat(gap) == text[prev..m.start] && Strip(gap) == text[prev..m.start] by {
      if prev < m.start {
        assert gap[1..] == [];
      }
    }
  }

  /** Rendering keeps the line intact: the text pieces of the output, joined
      without the colour codes, are exactly the line from offset `prev` on. */
  lemma {:induction false} RenderKeepsText(text: string, ms: seq<Slice>, prev: int, color: string, reset: string)
    requires 0 <= prev <= |text|
    requires Fits(ms, prev, |text|)
    ensures Strip(RenderFrom(text, ms, prev, color, reset)) == text[prev..]
    decreases |ms|
  {
    if ms == [] {
      assert Strip([]) == "";
      if prev < |text| {
        assert [Verbatim(text[prev..])][1..] == [];
      }
    } else {
      RenderFirst(text, ms, prev, color, reset);
      RenderKeepsText(text, ms[1..], ms[0].end, color, reset);
      CutText(text, prev, ms[0].start, ms[0].end);
    }
  }

  /** The rendered string is the line with `color` inserted at the start and
      `reset` at the end of every merged slice, and nothing else changed. */
  lemma {:induction false} RenderIsWeave(text: string, ms: seq<Slice>, prev: int, color: string, reset: string)
    requires 0 <= prev <= |text|
    requires Fits(ms, prev, |text|)
    ensures MarksFit(Boundaries(ms, color, reset), prev, |text|)
    ensures Concat(RenderFrom(text, ms, prev, color, reset))
         == Weave(text, Boundaries(ms, color, reset), prev)
    decreases |ms|
  {
    BoundariesFit(ms, prev, |text|, color, reset);
    if ms == [] {
      assert Concat([]) == "";
      if prev < |text| {
        assert [Verbatim(text[prev..])][1..] == [];
      }
    } else {
      var m := ms[0];
      RenderFirst(text, ms, prev, color, reset);
      RenderIsWeave(text, ms[1..], m.end, color, reset);
      var tail := Boundaries(ms[1..], color, reset);
      assert Boundaries(ms, color, reset) == [Mark(color, m.start), Mark(reset, m.end)] + tail;
      WeavePair(text, prev, m.start, m.end, color, reset, tail);
    }
  }

  /** Weaving the two codes of one slice, then the codes of the slices after it. */
  lemma WeavePair(text: string, prev: int, s: int, e: int, color: string, reset: string, tail: seq<Mark>)
    requires 0 <= prev <= s <= e <= |text|
    requires MarksFit(tail, e, |text|)
    ensures MarksFit([Mark(color, s), Mark(reset, e)] + tail, prev, |text|)
    ensures Weave(text, [Mark(color, s), Mark(reset, e)] + tail, prev)
         == text[prev..s] + (color + text[s..e] + reset) + Weave(text, tail, e)
  {
    var b := [Mark(color, s), Mark(reset, e)] + tail;
    assert b[1..] == [Mark(reset, e)] + tail;
    assert b[1..][1..] == tail;
  }

  /** A single highlighted slice: the line before it, the codes around it,
      the line after it. */
  lemma RenderSingle(text: string, m: Slice, color: string, reset: string)
    requires 0 <= m.start <= m.end <= |text|
    ensures Fits([m], 0, |text|)
    ensures Concat(Render(text, [m], color, reset))
         == text[..m.start] + (color + text[m.start..m.end] + reset) + text[m.end..]
  {
    RenderIsWeave(text, [m], 0, color, reset);
    var b := Boundaries([m], color, reset);
    assert b == [Mark(color, m.start), Mark(reset, m.end)] + [];
    WeavePair(text, 0, m.start, m.end, color, reset, []);
    assert text[0..m.start] == text[..m.start];
  }

  /** With no slices the line comes back unchanged. */
  lemma RenderNoSlices(text: string, color: string, reset: string)
    ensures Concat(Render(text, [], color, reset)) == text
  {
  }

  /** The render loop: copies the gap before each slice, wraps the slice in
      the colour codes, and finally copies the rest of the line. */
  method RenderSlices(text: string, merged: seq<Slice>, color: string, reset: string) returns (out: string)
    requires Fits(merged, 0, |text|)
    ensures out == Concat(Render(text, merged, color, reset))
    ensures MarksFit(Boundaries(merged, color, reset), 0, |text|)
         && out == Weave(text, Boundaries(merged, color, reset), 0)
  {
    var colored: seq<Piece> := [];
    var prevEnd := 0;
    for i := 0 to |merged|
      invariant 0 <= prevEnd <= |text|
      invariant Fits(merged[i..], prevEnd, |text|)
      invariant colored + RenderFrom(text, merged[i..], prevEnd, color, reset)
             == Render(text, merged, color, reset)
    {
      var m := merged[i];
      assert merged[i..][1..] == merged[i + 1..];
      if prevEnd < m.start {
        colored := colored + [Verbatim(text[prevEnd..m.start])];
      }
      colored := colored + [Marker(color), Verbatim(text[m.start..m.end]), Marker(reset)];
      prevEnd := m.end;
    }
    assert merged[|merged|..] == [];
    ghost var tail := RenderFrom(text, [], prevEnd, color, reset);
    assert colored + tail == Render(text, merged, color, reset);
    if prevEnd < |text| {
      colored := colored + [Verbatim(text[prevEnd..])];
    }
    assert colored == Render(text, merged, color, reset);
    out := Concat(colored);
    RenderIsWeave(text, merged, 0, color, reset);
  }
}

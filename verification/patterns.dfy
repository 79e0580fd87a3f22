/** The pattern functions of the command-line tools: compiling the user's
    patterns, combining them into one alternation, AND-matching a line
    against them, and highlighting every match in a line.

    The regular-expression engine is not part of this model. It enters as
    two oracles that every operation takes as parameters:
    - `compiles(source, ignoreCase)` says whether compiling `source` under
      the case flag succeeds (compiling fails with an error otherwise);
    - `finditer(p, text)` is the list of `(start, end)` slices of the
      successive matches of the compiled pattern `p` in `text`.
    A search for `p` in `text` succeeds exactly when `finditer` reports at
    least one match. */
module Patterns {
  import opened Spans
  import opened Merging
  import opened Rendering

  /** A compiled pattern: its source text and the case flag it was compiled under. */
  datatype Pattern = Pattern(source: string, ignoreCase: bool)

  datatype Option<T> = None | Some(value: T)

  /** A result, or the message the error reporter prints before exiting. */
  datatype Result<T> = Ok(value: T) | Err(message: string)

  /** `bool(p.search(text))`. */
  predicate Search(p: Pattern, text: string, finditer: (Pattern, string) -> seq<Slice>) {
    |finditer(p, text)| > 0
  }

  /** What the engine guarantees of every match it reports: `0 <= start <= end <= len(text)`. */
  predicate Reports(text: string, patterns: seq<Pattern>, finditer: (Pattern, string) -> seq<Slice>) {
    forall i :: 0 <= i < |patterns| ==> Within(finditer(patterns[i], text), 0, |text|)
  }

  // ---------------------------------------------------------------------
  // Compilation

  /** The message the reporter prints for a pattern that does not compile. */
  function InvalidPattern(pattern: string): string {
    "invalid pattern: " + pattern
  }

  /** The patterns left after the empty ones are skipped, in their order. */
  function NonEmpty(ps: seq<string>): (r: seq<string>)
    ensures |r| <= |ps|
    ensures forall i :: 0 <= i < |r| ==> r[i] != ""
  {
    if ps == [] then [] else (if ps[0] == "" then [] else [ps[0]]) + NonEmpty(ps[1..])
  }

  /** What compiling the patterns in order yields: the compiled non-empty
      patterns, or the error for the first one that does not compile. */
  function CompileAll(ps: seq<string>, ignoreCase: bool, compiles: (string, bool) -> bool): Result<seq<Pattern>> {
    if ps == [] then Ok([])
    else if ps[0] == "" then CompileAll(ps[1..], ignoreCase, compiles)
    else if !compiles(ps[0], ignoreCase) then Err(InvalidPattern(ps[0]))
    else match CompileAll(ps[1..], ignoreCase, compiles)
      case Ok(rest) => Ok([Pattern(ps[0], ignoreCase)] + rest)
      case Err(e) => Err(e)
  }

  /** `ps[i]` is the first non-empty pattern that does not compile. */
  predicate FirstInvalid(ps: seq<string>, ignoreCase: bool, compiles: (string, bool) -> bool, i: int) {
    && 0 <= i < |ps| && ps[i] != "" && !compiles(ps[i], ignoreCase)
    && forall j :: 0 <= j < i && ps[j] != "" ==> compiles(ps[j], ignoreCase)
  }

  /** Skipping the empty patterns drops nothing else: every non-empty string
      occurs as often in the result as in the input. */
  lemma {:induction false} NonEmptyKeeps(ps: seq<string>, s: string)
    requires s != ""
    ensures multiset(NonEmpty(ps))[s] == multiset(ps)[s]
  {
    if ps != [] {
      NonEmptyKeeps(ps[1..], s);
      assert ps == [ps[0]] + ps[1..];
    }
  }

  /** Compilation succeeds exactly when every non-empty pattern compiles. */
  lemma {:induction false} CompileAllOk(ps: seq<string>, ignoreCase: bool, compiles: (string, bool) -> bool)
    ensures CompileAll(ps, ignoreCase, compiles).Ok?
        <==> forall i :: 0 <= i < |ps| && ps[i] != "" ==> compiles(ps[i], ignoreCase)
  {
    if ps != [] {
      CompileAllOk(ps[1..], ignoreCase, compiles);
      if !(forall i :: 0 <= i < |ps[1..]| && ps[1..][i] != "" ==> compiles(ps[1..][i], ignoreCase)) {
        var i :| 0 <= i < |ps[1..]| && ps[1..][i] != "" && !compiles(ps[1..][i], ignoreCase);
        assert ps[i + 1] == ps[1..][i];
      }
      if forall i :: 0 <= i < |ps[1..]| && ps[1..][i] != "" ==> compiles(ps[1..][i], ignoreCase) {
        forall i | 1 <= i < |ps| && ps[i] != ""
          ensures compiles(ps[i], ignoreCase)
        {
          assert ps[i] == ps[1..][i - 1];
        }
      }
    }
  }

  /** A successful compilation yields each non-empty pattern, in order,
      under the one case flag. */
  lemma {:induction false} CompileAllValue(ps: seq<string>, ignoreCase: bool, compiles: (string, bool) -> bool)
    ensures CompileAll(ps, ignoreCase, compiles).Ok? ==>
      var v := CompileAll(ps, ignoreCase, compiles).value;
      |v| == |NonEmpty(ps)| && forall i :: 0 <= i < |v| ==> v[i] == Pattern(NonEmpty(ps)[i], ignoreCase)
  {
    if ps != [] && CompileAll(ps, ignoreCase, compiles).Ok? {
      CompileAllValue(ps[1..], ignoreCase, compiles);
      var rest := CompileAll(ps[1..], ignoreCase, compiles).value;
      if ps[0] == "" {
        assert NonEmpty(ps) == [] + NonEmpty(ps[1..]) == NonEmpty(ps[1..]);
      } else {
        var v := CompileAll(ps, ignoreCase, compiles).value;
        var ne := NonEmpty(ps);
        assert v == [Pattern(ps[0], ignoreCase)] + rest;
        assert ne == [ps[0]] + NonEmpty(ps[1..]);
        forall i | 0 <= i < |v|
          ensures v[i] == Pattern(ne[i], ignoreCase)
        {
          if i > 0 {
            assert v[i] == rest[i - 1] && ne[i] == NonEmpty(ps[1..])[i - 1];
          }
        }
      }
    }
  }

  /** Compilation is fail-fast: an error names the first non-empty pattern
      that does not compile, and no list of patterns is produced. */
  lemma {:induction false} CompileAllErr(ps: seq<string>, ignoreCase: bool, compiles: (string, bool) -> bool)
    ensures CompileAll(ps, ignoreCase, compiles).Err? ==>
      exists i :: FirstInvalid(ps, ignoreCase, compiles, i)
               && CompileAll(ps, ignoreCase, compiles).message == InvalidPattern(ps[i])
  {
    if ps != [] && CompileAll(ps, ignoreCase, compiles).Err? {
      if ps[0] != "" && !compiles(ps[0], ignoreCase) {
        assert FirstInvalid(ps, ignoreCase, compiles, 0);
      } else {
        CompileAllErr(ps[1..], ignoreCase, compiles);
        var i :| FirstInvalid(ps[1..], ignoreCase, compiles, i)
              && CompileAll(ps[1..], ignoreCase, compiles).message == InvalidPattern(ps[1..][i]);
        assert ps[i + 1] == ps[1..][i];
        forall j | 0 <= j < i + 1 && ps[j] != ""
          ensures compiles(ps[j], ignoreCase)
        {
          if j > 0 {
            assert ps[j] == ps[1..][j - 1];
          }
        }
        assert FirstInvalid(ps, ignoreCase, compiles, i + 1);
      }
    }
  }

  /** The `[`-then-`valid` case: `[` does not compile, so compilation fails
      on it, whatever follows. */
  lemma CompileInvalidFirst(compiles: (string, bool) -> bool, ignoreCase: bool)
    requires !compiles("[", ignoreCase)
    ensures CompileAll(["[", "valid"], ignoreCase, compiles) == Err("invalid pattern: [")
  {
  }

  /** The outcome once `done` have been compiled and `r` is the outcome for
      the patterns still to come. */
  function After(done: seq<Pattern>, r: Result<seq<Pattern>>): Result<seq<Pattern>> {
    match r
    case Ok(rest) => Ok(done + rest)
    case Err(e) => Err(e)
  }

  /** Compiling the patterns from `i` on: the first of them is skipped when
      empty, fails when it does not compile, and otherwise heads the list. */
  lemma CompileSuffix(ps: seq<string>, i: int, ignoreCase: bool, compiles: (string, bool) -> bool)
    requires 0 <= i < |ps|
    ensures CompileAll(ps[i..], ignoreCase, compiles)
         == if ps[i] == "" then CompileAll(ps[i + 1..], ignoreCase, compiles)
            else if !compiles(ps[i], ignoreCase) then Err(InvalidPattern(ps[i]))
            else After([Pattern(ps[i], ignoreCase)], CompileAll(ps[i + 1..], ignoreCase, compiles))
  {
    assert ps[i..][0] == ps[i];
    assert ps[i..][1..] == ps[i + 1..];
  }

  /** Compiling one more pattern extends the list already compiled. */
  lemma AfterAppend(done: seq<Pattern>, p: Pattern, r: Result<seq<Pattern>>)
    ensures After(done, After([p], r)) == After(done + [p], r)
  {
    if r.Ok? {
      assert done + ([p] + r.value) == (done + [p]) + r.value;
    }
  }

  /** `compile_patterns`: compiles each non-empty pattern in order under one
      case flag; the first pattern that does not compile goes to the error
      reporter, which ends the run, so no list is returned. */
  method CompilePatterns(patterns: seq<string>, ignoreCase: bool, compiles: (string, bool) -> bool)
    returns (r: Result<seq<Pattern>>)
    ensures r == CompileAll(patterns, ignoreCase, compiles)
    ensures r.Ok? <==> forall i :: 0 <= i < |patterns| && patterns[i] != "" ==> compiles(patterns[i], ignoreCase)
    ensures r.Ok? ==>
      |r.value| == |NonEmpty(patterns)|
      && forall i :: 0 <= i < |r.value| ==> r.value[i] == Pattern(NonEmpty(patterns)[i], ignoreCase)
    ensures r.Err? ==> exists i :: FirstInvalid(patterns, ignoreCase, compiles, i) && r.message == InvalidPattern(patterns[i])
  {
    r := Ok([]);
    var compiled: seq<Pattern> := [];
    assert patterns[0..] == patterns;
    if CompileAll(patterns, ignoreCase, compiles).Ok? {
      assert [] + CompileAll(patterns, ignoreCase, compiles).value == CompileAll(patterns, ignoreCase, compiles).value;
    }
    for i := 0 to |patterns|
      invariant r == Ok([])
      invariant CompileAll(patterns, ignoreCase, compiles)
             == After(compiled, CompileAll(patterns[i..], ignoreCase, compiles))
    {
      var pattern := patterns[i];
      CompileSuffix(patterns, i, ignoreCase, compiles);
      AfterAppend(compiled, Pattern(pattern, ignoreCase), CompileAll(patterns[i + 1..], ignoreCase, compiles));
      if pattern == "" {
        continue;
      }
      if !compiles(pattern, ignoreCase) {
        r := Err(InvalidPattern(pattern));
        break;
      }
      compiled := compiled + [Pattern(pattern, ignoreCase)];
    }
    if r.Ok? {
      assert patterns[|patterns|..] == [];
      assert compiled + [] == compiled;
      r := Ok(compiled);
    }
    CompileAllOk(patterns, ignoreCase, compiles);
    CompileAllValue(patterns, ignoreCase, compiles);
    CompileAllErr(patterns, ignoreCase, compiles);
  }

  // ---------------------------------------------------------------------
  // Combination

  /** The source texts of the patterns, in order. */
  function Sources(patterns: seq<Pattern>): (r: seq<string>)
    ensures |r| == |patterns|
    ensures forall i :: 0 <= i < |r| ==> r[i] == patterns[i].source
  {
    if patterns == [] then [] else [patterns[0].source] + Sources(patterns[1..])
  }

  /** `"|".join(sources)`. */
  function Join(sources: seq<string>): string {
    if sources == [] then ""
    else if |sources| == 1 then sources[0]
    else sources[0] + "|" + Join(sources[1..])
  }

  /** Splitting a string at every `|`; the partner of `Join`. */
  function Split(s: string): (r: seq<string>)
    ensures |r| > 0
  {
    if s == [] then [""]
    else if s[0] == '|' then [""] + Split(s[1..])
    else
      var rest := Split(s[1..]);
      [[s[0]] + rest[0]] + rest[1..]
  }

  /** No pattern source contains the `|` separator. */
  predicate BarFree(patterns: seq<Pattern>) {
    forall i :: 0 <= i < |patterns| ==> '|' !in patterns[i].source
  }

  /** `combine_patterns`: one pattern whose source is the alternation of all
      the sources, compiled under the case flag; `None` when that source
      does not compile (the compile error is not caught). The sources come
      back in order from the combined source when none contains a bar, and no
      patterns give the empty source. */
  function CombinePatterns(patterns: seq<Pattern>, ignoreCase: bool, compiles: (string, bool) -> bool): (r: Option<Pattern>)
    ensures r.Some? <==> compiles(Join(Sources(patterns)), ignoreCase)
    ensures r.Some? ==> r.value.ignoreCase == ignoreCase
    ensures r.Some? && |patterns| > 0 && BarFree(patterns) ==> Split(r.value.source) == Sources(patterns)
    ensures r.Some? && patterns == [] ==> r.value.source == ""
  {
    var source := Join(Sources(patterns));
    SourcesRoundTrip(patterns);
    if compiles(source, ignoreCase) then Some(Pattern(source, ignoreCase)) else None
  }

  /** The sources of bar-free patterns come back from their joined source. */
  lemma SourcesRoundTrip(patterns: seq<Pattern>)
    ensures |patterns| > 0 && BarFree(patterns) ==> Split(Join(Sources(patterns))) == Sources(patterns)
  {
    if |patterns| > 0 && BarFree(patterns) {
      SplitJoin(Sources(patterns));
    }
  }

  lemma {:induction false} SplitPlain(a: string)
    requires '|' !in a
    ensures Split(a) == [a]
  {
    if a != [] {
      assert a[1..] == a[1..] && '|' !in a[1..] by {
        forall k | 0 <= k < |a[1..]| ensures a[1..][k] != '|' { assert a[1..][k] == a[k + 1]; }
      }
      SplitPlain(a[1..]);
      assert [a[0]] + a[1..] == a;
    }
  }

  lemma {:induction false} SplitAfter(a: string, b: string)
    requires '|' !in a
    ensures Split(a + "|" + b) == [a] + Split(b)
  {
    if a == [] {
      assert a + "|" + b == "|" + b;
      assert ("|" + b)[1..] == b;
    } else {
      var s := a + "|" + b;
      assert s[0] == a[0];
      assert s[1..] == a[1..] + "|" + b;
      assert '|' !in a[1..] by {
        forall k | 0 <= k < |a[1..]| ensures a[1..][k] != '|' { assert a[1..][k] == a[k + 1]; }
      }
      SplitAfter(a[1..], b);
      assert [a[0]] + a[1..] == a;
    }
  }

  /** Joining keeps every source and their order: when no source contains
      the `|` separator, splitting the combined source gives the sources back. */
  lemma {:induction false} SplitJoin(sources: seq<string>)
    requires |sources| > 0
    requires forall i :: 0 <= i < |sources| ==> '|' !in sources[i]
    ensures Split(Join(sources)) == sources
  {
    if |sources| == 1 {
      SplitPlain(sources[0]);
    } else {
      SplitJoin(sources[1..]);
      SplitAfter(sources[0], Join(sources[1..]));
      assert [sources[0]] + sources[1..] == sources;
    }
  }

  /** The combined pattern's source is the `|`-alternation of the sources,
      from which they come back in order, under the one case flag. */
  lemma CombineKeepsSources(patterns: seq<Pattern>, ignoreCase: bool, compiles: (string, bool) -> bool)
    requires |patterns| > 0
    requires forall i :: 0 <= i < |patterns| ==> '|' !in patterns[i].source
    requires compiles(Join(Sources(patterns)), ignoreCase)
    ensures CombinePatterns(patterns, ignoreCase, compiles).Some?
    ensures CombinePatterns(patterns, ignoreCase, compiles).value.ignoreCase == ignoreCase
    ensures Split(CombinePatterns(patterns, ignoreCase, compiles).value.source) == Sources(patterns)
  {
    SplitJoin(Sources(patterns));
  }

  /** Combining no patterns joins no sources: the result is the pattern with
      the empty source, which the engine finds in every line. */
  lemma CombineNone(ignoreCase: bool, compiles: (string, bool) -> bool)
    requires compiles("", ignoreCase)
    ensures CombinePatterns([], ignoreCase, compiles) == Some(Pattern("", ignoreCase))
  {
  }

  /** The combined source cannot always be split back: no patterns and one
      empty pattern give the same source, and so do a source containing a bar
      and the two sources on either side of it. */
  lemma CombineAmbiguous(ignoreCase: bool, compiles: (string, bool) -> bool)
    ensures CombinePatterns([], ignoreCase, compiles)
         == CombinePatterns([Pattern("", ignoreCase)], ignoreCase, compiles)
    ensures CombinePatterns([Pattern("a|b", ignoreCase)], ignoreCase, compiles)
         == CombinePatterns([Pattern("a", ignoreCase), Pattern("b", ignoreCase)], ignoreCase, compiles)
  {
    assert Sources([Pattern("", ignoreCase)]) == [""];
    assert Sources([Pattern("a|b", ignoreCase)]) == ["a|b"];
    assert Sources([Pattern("a", ignoreCase), Pattern("b", ignoreCase)]) == ["a", "b"];
    assert Join(["a", "b"]) == "a" + "|" + "b" == "a|b";
  }

  // ---------------------------------------------------------------------
  // AND matching

  /** `text_has_patterns`: true iff every pattern is found in the text; stops
      at the first pattern that is not found. */
  method TextHasPatterns(text: string, patterns: seq<Pattern>, finditer: (Pattern, string) -> seq<Slice>)
    returns (found: bool)
    ensures found <==> forall i :: 0 <= i < |patterns| ==> Search(patterns[i], text, finditer)
  {
    for i := 0 to |patterns|
      invariant forall j :: 0 <= j < i ==> Search(patterns[j], text, finditer)
    {
      if !Search(patterns[i], text, finditer) {
        return false;
      }
    }
    return true;
  }

  // ---------------------------------------------------------------------
  // Highlighting

  /** The slices of every match of every pattern, pattern after pattern. */
  function Collected(text: string, patterns: seq<Pattern>, finditer: (Pattern, string) -> seq<Slice>): seq<Slice> {
    if patterns == [] then []
    else Collected(text, patterns[..|patterns| - 1], finditer) + finditer(patterns[|patterns| - 1], text)
  }

  /** The collected slices lie in the line, and there are none exactly when
      no pattern is found. */
  lemma {:induction false} CollectedWithin(text: string, patterns: seq<Pattern>, finditer: (Pattern, string) -> seq<Slice>)
    requires Reports(text, patterns, finditer)
    ensures Within(Collected(text, patterns, finditer), 0, |text|)
    ensures Collected(text, patterns, finditer) == []
        <==> forall i :: 0 <= i < |patterns| ==> !Search(patterns[i], text, finditer)
  {
    if patterns != [] {
      var p := patterns[..|patterns| - 1];
      assert Reports(text, p, finditer) by {
        forall i | 0 <= i < |p| ensures Within(finditer(p[i], text), 0, |text|) {
          assert p[i] == patterns[i];
        }
      }
      CollectedWithin(text, p, finditer);
      assert forall i :: 0 <= i < |p| ==> p[i] == patterns[i];
    }
  }

  /** The merged slices of a line: the collected slices, sorted and merged.
      They lie in the line and are strictly apart. */
  function Merged(text: string, patterns: seq<Pattern>, finditer: (Pattern, string) -> seq<Slice>): (r: seq<Slice>)
    requires Reports(text, patterns, finditer)
    ensures Fits(r, 0, |text|)
  {
    CollectedWithin(text, patterns, finditer);
    SortMerge(Collected(text, patterns, finditer), |text|);
    Merge(SortSlices(Collected(text, patterns, finditer)))
  }

  /** The merged slices of a line are a faithful merge of its matches: they
      cover the same positions, every match lies inside one of them, and each
      starts and ends where some match starts and ends. */
  lemma MergedFaithful(text: string, patterns: seq<Pattern>, finditer: (Pattern, string) -> seq<Slice>)
    requires Reports(text, patterns, finditer)
    ensures MergedFrom(Merged(text, patterns, finditer), Collected(text, patterns, finditer))
  {
    CollectedWithin(text, patterns, finditer);
    SortMerge(Collected(text, patterns, finditer), |text|);
  }

  /** The pieces `color_patterns_in_text` joins for a line. */
  function ColoredPieces(text: string, patterns: seq<Pattern>, finditer: (Pattern, string) -> seq<Slice>,
                         color: string, reset: string): seq<Piece>
    requires Reports(text, patterns, finditer)
  {
    Render(text, Merged(text, patterns, finditer), color, reset)
  }

  /** The highlighted line. */
  function ColoredText(text: string, patterns: seq<Pattern>, finditer: (Pattern, string) -> seq<Slice>,
                       color: string, reset: string): string
    requires Reports(text, patterns, finditer)
  {
    Concat(ColoredPieces(text, patterns, finditer, color, reset))
  }

  /** Highlighting never alters, drops or reorders the line: with the colour
      codes left out, the output pieces are the line. */
  lemma ColoredKeepsText(text: string, patterns: seq<Pattern>, finditer: (Pattern, string) -> seq<Slice>,
                         color: string, reset: string)
    requires Reports(text, patterns, finditer)
    ensures Strip(ColoredPieces(text, patterns, finditer, color, reset)) == text
  {
    RenderKeepsText(text, Merged(text, patterns, finditer), 0, color, reset);
  }

  /** The highlighted line is the line with `color` inserted at the start and
      `reset` at the end of each merged slice. */
  lemma ColoredIsWeave(text: string, patterns: seq<Pattern>, finditer: (Pattern, string) -> seq<Slice>,
                       color: string, reset: string)
    requires Reports(text, patterns, finditer)
    ensures MarksFit(Boundaries(Merged(text, patterns, finditer), color, reset), 0, |text|)
    ensures ColoredText(text, patterns, finditer, color, reset)
         == Weave(text, Boundaries(Merged(text, patterns, finditer), color, reset), 0)
  {
    RenderIsWeave(text, Merged(text, patterns, finditer), 0, color, reset);
  }

  /** When no pattern is found the line comes back unchanged; in particular
      an empty line without matches renders as the empty string. */
  lemma NoMatchLeavesText(text: string, patterns: seq<Pattern>, finditer: (Pattern, string) -> seq<Slice>,
                          color: string, reset: string)
    requires Reports(text, patterns, finditer)
    requires forall i :: 0 <= i < |patterns| ==> !Search(patterns[i], text, finditer)
    ensures ColoredText(text, patterns, finditer, color, reset) == text
  {
    CollectedWithin(text, patterns, finditer);
    RenderNoSlices(text, color, reset);
  }

  /** A line that passes the AND test against at least one pattern gets at
      least one highlighted slice, that is a `color` and a `reset` code. */
  lemma MatchedLineIsHighlighted(text: string, patterns: seq<Pattern>, finditer: (Pattern, string) -> seq<Slice>,
                                 color: string, reset: string)
    requires Reports(text, patterns, finditer)
    requires |patterns| > 0
    requires forall i :: 0 <= i < |patterns| ==> Search(patterns[i], text, finditer)
    ensures |Merged(text, patterns, finditer)| > 0
    ensures |Boundaries(Merged(text, patterns, finditer), color, reset)| >= 2
  {
    CollectedWithin(text, patterns, finditer);
    assert !Search(patterns[0], text, finditer) ==> false;
    var slices := Collected(text, patterns, finditer);
    assert |SortSlices(slices)| == |slices| by {
      assert |multiset(SortSlices(slices))| == |multiset(slices)|;
    }
  }

  /** The matches of a single pattern with a single match merge into that match. */
  lemma MergedSingle(text: string, p: Pattern, finditer: (Pattern, string) -> seq<Slice>, m: Slice)
    requires finditer(p, text) == [m]
    requires 0 <= m.start <= m.end <= |text|
    ensures Reports(text, [p], finditer)
    ensures Merged(text, [p], finditer) == [m]
  {
    assert [p][..0] == [];
    assert Collected(text, [p], finditer) == [m];
    assert SortSlices([m]) == [m];
    assert [m][..0] == [];
  }

  /** The alternatives "cat" and "dog" combine into the single pattern "cat|dog". */
  lemma CatDogCombined(compiles: (string, bool) -> bool)
    requires compiles("cat|dog", false)
    ensures CombinePatterns([Pattern("cat", false), Pattern("dog", false)], false, compiles)
         == Some(Pattern("cat|dog", false))
  {
    var ps := [Pattern("cat", false), Pattern("dog", false)];
    assert Sources(ps) == ["cat", "dog"];
    assert Join(["cat", "dog"]) == "cat" + "|" + "dog" == "cat|dog";
  }

  /** The combined pattern on "the cat sat on the mat": only "cat" at 4..7
      matches, and it alone is wrapped in the codes. */
  lemma CatScenario(finditer: (Pattern, string) -> seq<Slice>, color: string, reset: string)
    requires finditer(Pattern("cat|dog", false), "the cat sat on the mat") == [Slice(4, 7)]
    ensures Reports("the cat sat on the mat", [Pattern("cat|dog", false)], finditer)
    ensures ColoredText("the cat sat on the mat", [Pattern("cat|dog", false)], finditer, color, reset)
         == "the " + (color + "cat" + reset) + " sat on the mat"
  {
    var text := "the cat sat on the mat";
    MergedSingle(text, Pattern("cat|dog", false), finditer, Slice(4, 7));
    RenderSingle(text, Slice(4, 7), color, reset);
    assert text[..4] == "the " && text[4..7] == "cat" && text[7..] == " sat on the mat";
  }

  /** Two patterns with one match each: the merge of those two matches. */
  lemma MergedPair(text: string, p: Pattern, q: Pattern, finditer: (Pattern, string) -> seq<Slice>, a: Slice, b: Slice)
    requires finditer(p, text) == [a] && finditer(q, text) == [b]
    requires 0 <= a.start <= a.end <= |text| && 0 <= b.start <= b.end <= |text|
    ensures Reports(text, [p, q], finditer)
    ensures Merged(text, [p, q], finditer) == Merge(SortSlices([a, b]))
  {
    var ps := [p, q];
    assert ps[..1] == [p];
    assert [p][..0] == [];
    assert Collected(text, [p], finditer) == [a];
    assert Collected(text, ps, finditer) == [a] + [b];
  }

  /** Overlapping matches of "ab" and "bc" in "xabcx" merge into one slice. */
  lemma OverlapMerged(finditer: (Pattern, string) -> seq<Slice>)
    requires finditer(Pattern("ab", false), "xabcx") == [Slice(1, 3)]
    requires finditer(Pattern("bc", false), "xabcx") == [Slice(2, 4)]
    ensures Reports("xabcx", [Pattern("ab", false), Pattern("bc", false)], finditer)
    ensures Merged("xabcx", [Pattern("ab", false), Pattern("bc", false)], finditer) == [Slice(1, 4)]
  {
    MergedPair("xabcx", Pattern("ab", false), Pattern("bc", false), finditer, Slice(1, 3), Slice(2, 4));
    assert Le(Slice(1, 3), Slice(2, 4));
    SortSorted([Slice(1, 3), Slice(2, 4)]);
    MergeOverlapping();
  }

  /** ... and that slice is highlighted as one "abc". */
  lemma OverlapScenario(finditer: (Pattern, string) -> seq<Slice>, color: string, reset: string)
    requires finditer(Pattern("ab", false), "xabcx") == [Slice(1, 3)]
    requires finditer(Pattern("bc", false), "xabcx") == [Slice(2, 4)]
    ensures Reports("xabcx", [Pattern("ab", false), Pattern("bc", false)], finditer)
    ensures ColoredText("xabcx", [Pattern("ab", false), Pattern("bc", false)], finditer, color, reset)
         == "x" + (color + "abc" + reset) + "x"
  {
    var text := "xabcx";
    OverlapMerged(finditer);
    RenderSingle(text, Slice(1, 4), color, reset);
    assert text[..1] == "x" && text[1..4] == "abc" && text[4..] == "x";
  }

  /** The collection loop: the slices of every match of every pattern. */
  method CollectSlices(text: string, patterns: seq<Pattern>, finditer: (Pattern, string) -> seq<Slice>)
    returns (slices: seq<Slice>)
    ensures slices == Collected(text, patterns, finditer)
  {
    slices := [];
    for i := 0 to |patterns|
      invariant slices == Collected(text, patterns[..i], finditer)
    {
      var found := finditer(patterns[i], text);
      for k := 0 to |found|
        invariant slices == Collected(text, patterns[..i], finditer) + found[..k]
      {
        slices := slices + [found[k]];
      }
      assert found[..|found|] == found;
      assert patterns[..i + 1][..i] == patterns[..i];
    }
    assert patterns[..|patterns|] == patterns;
  }

  /** `color_patterns_in_text`: collects the match slices of every pattern,
      sorts and merges them, and wraps each merged slice in `color` and
      `reset`, copying the rest of the line. */
  method ColorPatternsInText(text: string, patterns: seq<Pattern>, finditer: (Pattern, string) -> seq<Slice>,
                             color: string, reset: string) returns (out: string)
    requires Reports(text, patterns, finditer)
    ensures out == ColoredText(text, patterns, finditer, color, reset)
    ensures MarksFit(Boundaries(Merged(text, patterns, finditer), color, reset), 0, |text|)
         && out == Weave(text, Boundaries(Merged(text, patterns, finditer), color, reset), 0)
  {
    var slices := CollectSlices(text, patterns, finditer);
    var sorted := SortSlices(slices);
    var merged := MergeSlices(sorted);
    assert merged == Merged(text, patterns, finditer);
    out := RenderSlices(text, merged, color, reset);
  }
}

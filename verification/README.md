# Pattern matching and highlighting of the command-line tools

This project models `cli/patterns.py`. That module holds the pattern functions
shared by the tools. It does four things:

- compiles the user's patterns, skipping empty ones and stopping at the first
  one that does not compile;
- combines several compiled patterns into one `|`-alternation;
- decides whether a line matches every pattern (AND matching);
- highlights a line. It collects the `(start, end)` slice of every match of
  every pattern, sorts the slices, merges overlapping or touching slices, and
  wraps each merged slice in the highlight colour and the reset code.

The model has four modules:

- `Spans` (`spans.dfy`): match slices, their tuple order, and Python's
  `sorted`.
- `Merging` (`merging.dfy`): the merge loop.
- `Rendering` (`rendering.dfy`): the render loop.
- `Patterns` (`patterns.dfy`): the four functions of the module.

The regular-expression engine is not modelled. Every operation takes it as
parameters:

- `compiles(source, ignoreCase)` says whether `re.compile` succeeds.
- `finditer(p, text)` gives the slices of the successive matches.
- A search succeeds exactly when `finditer` reports a match.
- The engine promises `0 <= start <= end <= len(text)` for every match. The
  highlighting members take that promise as the precondition `Reports`.

The loops of the module are methods. `CollectSlices`, `MergeSlices`,
`RenderSlices` and `CompilePatterns` build lists, and each is proved equal to a
specification function. The properties of the module are proved as lemmas
about those functions. `TextHasPatterns` is an early-return loop, proved
equivalent to "every pattern is found". `ColorPatternsInText` has no loop of
its own. It calls the collection, sort, merge and render steps in turn, and is
proved equal to the specification of the highlighted line.

Highlighting has two reference points:

- The pieces of the output are tagged as line text (`Verbatim`) or colour code
  (`Marker`). `Strip` keeps only the line text, which is used to state that
  rendering keeps the line intact.
- `Weave` is an independent definition of the expected output. It is the line
  with a code inserted at each slice boundary.

## Model

| member | source | states |
|---|---|---|
| Spans.SortSlices | cli/patterns.py:44 | `sorted(slices)` is ordered by `(start, end)` and is a permutation of the slices (same multiset) |
| Spans.SortWithin | cli/patterns.py:44 | sorting keeps every slice inside the line and keeps the number of slices |
| Spans.SortSorted | cli/patterns.py:44 | slices already in order come back from `sorted` unchanged |
| Merging.Merge | cli/patterns.py:42-48 | the merge never yields more slices than it is given, and yields none exactly when it is given none |
| Merging.MergeWithin | cli/patterns.py:42-48 | merged slices stay inside the bounds of the input slices |
| Merging.MergeShape | cli/patterns.py:42-48 | on sorted, well-formed input the merged slices are well formed and strictly apart: each ends before the next one starts |
| Merging.MergeCovers | cli/patterns.py:42-48 | a position lies in a merged slice iff it lies in an input slice (coverage kept both ways) |
| Merging.MergePositions | cli/patterns.py:42-48 | the same, for all positions at once |
| Merging.MergeContains | cli/patterns.py:45-46 | every input slice lies inside some merged slice, so a contained or overlapping slice collapses into the larger one |
| Merging.MergeTwo | cli/patterns.py:45-48 | two slices merge iff the second starts at or before the first one's end (the `<=` test), into `(first start, larger end)`; otherwise both stay |
| Merging.MergeDisjoint | cli/patterns.py:42-48 | slices that are already strictly apart pass through the merge unchanged |
| Merging.MergeIdempotent | cli/patterns.py:42-48 | merging merged slices changes nothing |
| Merging.SortMergeIdempotent | cli/patterns.py:44-48 | sort-then-merge applied to its own output returns that output |
| Merging.SortMerge | cli/patterns.py:44-48 | sort-then-merge yields slices inside the line, strictly apart, covering the same positions as the input, containing every input slice, and each starting and ending where an input slice starts and ends |
| Merging.MergeEnds | cli/patterns.py:45-48 | the merge invents no boundary: every merged slice starts at an input slice's start and ends at an input slice's end, so no slice appears where nothing matched |
| Merging.NoStraySlice | cli/patterns.py:42-48 | a list with an extra zero-length slice where no match lies is not a faithful merge of the matches |
| Merging.MergeTouching | cli/patterns.py:45-46 | `(0,3)` and `(3,6)` merge into `(0,6)` |
| Merging.MergeGap | cli/patterns.py:47-48 | `(0,3)` and `(4,6)` stay two slices |
| Merging.MergeContained | cli/patterns.py:45-46 | `(2,8)` and `(3,5)` merge into `(2,8)` |
| Merging.MergeOverlapping | cli/patterns.py:45-46 | `(1,3)` and `(2,4)` merge into `(1,4)` |
| Merging.MergeSlices | cli/patterns.py:42-48 | the merge loop computes `Merge`; on sorted well-formed input its result is strictly apart and covers exactly the input's positions; every merged slice starts and ends where an input slice does |
| Rendering.RenderKeepsText | cli/patterns.py:51-64 | with the colour codes left out, the output pieces are exactly the line: nothing altered, dropped or reordered |
| Rendering.RenderIsWeave | cli/patterns.py:51-64 | the joined output is the line with `color` at each slice start and the reset code at each slice end, inserted in ascending order |
| Rendering.RenderSingle | cli/patterns.py:54-62 | one slice renders as the text before it, `color`, the slice's text, reset, the text after it |
| Rendering.RenderNoSlices | cli/patterns.py:61-64 | with no slices the output is the line itself |
| Rendering.RenderSlices | cli/patterns.py:51-64 | the render loop joins the pieces of `Render`, and that string is the woven line |
| Patterns.NonEmptyKeeps | cli/patterns.py:93-95 | skipping empty patterns drops no non-empty pattern: each occurs as often as in the input |
| Patterns.CompileAllOk | cli/patterns.py:93-102 | compilation succeeds iff every non-empty pattern compiles |
| Patterns.CompileAllValue | cli/patterns.py:90-102 | on success the list holds exactly the non-empty patterns, in order, all under the one case flag |
| Patterns.CompileAllErr | cli/patterns.py:97-100 | on failure the message is `invalid pattern: ` and the first non-empty pattern that does not compile; every earlier non-empty pattern compiled |
| Patterns.CompileInvalidFirst | cli/patterns.py:97-100 | `["[", "valid"]` with `[` invalid fails with `invalid pattern: [` |
| Patterns.CompilePatterns | cli/patterns.py:81-102 | the compile loop yields `CompileAll`: success iff all non-empty patterns compile, the non-empty patterns in order, otherwise the first invalid one's message |
| Patterns.SplitJoin | cli/patterns.py:76-78 | when no source contains the bar separator, splitting the joined source at each bar gives the sources back in order |
| Patterns.CombinePatterns | cli/patterns.py:67-78 | joins the sources with a bar between them, in order, and compiles the result under the one case flag: `Some` exactly when that source compiles, carrying the case flag; `None` otherwise. When no source contains a bar, the combined source splits back into the sources in order; with no patterns the source is empty. Further properties: `CombineKeepsSources`, `CombineNone`, `CombineAmbiguous` |
| Patterns.CombineKeepsSources | cli/patterns.py:67-78 | the combined pattern carries the case flag, and its source splits back into the sources in order |
| Patterns.CombineNone | cli/patterns.py:76-78 | combining no patterns gives the empty pattern under the case flag (that this pattern matches every line is the engine's behaviour, not part of the contract) |
| Patterns.CombineAmbiguous | cli/patterns.py:76-78 | no patterns and one empty pattern combine to the same pattern, and so do a source `a` bar `b` and the two sources `a`, `b` |
| Patterns.CatDogCombined | cli/patterns.py:75-78 | `cat` and `dog` combine into the alternation of the two, joined by a bar |
| Patterns.TextHasPatterns | cli/patterns.py:105-117 | true iff every pattern is found in the line, which makes it vacuously true for no patterns (the body returns at the first pattern not found; the contract states only the result) |
| Patterns.CollectedWithin | cli/patterns.py:34-39 | the collected slices lie in the line, and there are none iff no pattern is found |
| Patterns.CollectSlices | cli/patterns.py:34-39 | the collection loop appends every match slice of every pattern, pattern after pattern |
| Patterns.Merged | cli/patterns.py:34-48 | the merged slices of a line are inside it and strictly apart |
| Patterns.MergedFaithful | cli/patterns.py:34-48 | the merged slices cover the same positions as the matches, contain every match, and start and end only where matches start and end |
| Patterns.ColoredKeepsText | cli/patterns.py:25-64 | highlighting keeps the line: the output without colour codes is the line |
| Patterns.ColoredIsWeave | cli/patterns.py:25-64 | the highlighted line is the line with the codes inserted at the merged slice boundaries |
| Patterns.NoMatchLeavesText | cli/patterns.py:25-64 | when no pattern is found the output equals the line, so an empty line gives the empty string |
| Patterns.MatchedLineIsHighlighted | cli/patterns.py:34-64 | a line that matches every one of at least one pattern gets at least one highlighted slice |
| Patterns.MergedSingle | cli/patterns.py:34-48 | one pattern with one match merges into that match |
| Patterns.MergedPair | cli/patterns.py:34-48 | two patterns with one match each merge as the sorted pair of matches |
| Patterns.CatScenario | cli/patterns.py:25-64 | on `the cat sat on the mat`, a single match at 4..7 gives `the ` + color + `cat` + reset + ` sat on the mat` |
| Patterns.OverlapMerged | cli/patterns.py:34-48 | matches 1..3 and 2..4 in `xabcx` merge into 1..4 |
| Patterns.OverlapScenario | cli/patterns.py:25-64 | and `xabcx` is highlighted as `x` + color + `abc` + reset + `x` |
| Patterns.ColorPatternsInText | cli/patterns.py:25-64 | the whole function yields `ColoredText`, which is the line woven with codes at the merged slice boundaries |

## Left out

- The regular-expression engine is not modelled: `re.compile`, `finditer`,
  `search` and the meaning of `re.IGNORECASE`. They are the oracles `compiles`
  and `finditer`. The match positions they report and whether a pattern
  compiles are inputs, not results.
- CombinePatterns: the code does not guarantee that the combined pattern
  matches a line exactly when one of the patterns does, and the model does not
  state it. The model proves only what the code builds: the `|`-joined source
  under the case flag. Two cases break the "one of them matches" reading:
  - With no patterns the joined source is the empty pattern, which matches
    every line although no pattern matches it (`CombineNone`).
  - Joining raw sources renumbers capture groups. `(a)\1` and `(b)\1` become
    `(a)\1|(b)\1`, whose second `\1` refers to the first alternative's group,
    so `bb` no longer matches.
- CombineKeepsSources: the round trip is stated only for a non-empty list of
  sources that contain no `|`. A source containing `|` cannot be split back
  from the joined source, and an empty list yields the empty pattern, the same
  source as one empty pattern (`CombineAmbiguous`, `CombineNone`).
- CombinePatterns: a combined source that does not compile raises from
  `re.compile`. That is modelled as `None`.
- CompilePatterns: `compiles(source, ignoreCase)` stands for "`re.compile`
  raises no `re.error`". The code catches only `re.error`
  (`cli/patterns.py:97-100`). Any other exception from `re.compile` escapes
  uncaught without reaching the reporter, and that is not modelled. For example,
  an over-large repetition count such as `a{4294967296}` raises
  `OverflowError`; the model would report it as an invalid pattern instead.
- CompilePatterns: the error reporter prints to standard error and raises
  `SystemExit`. That is modelled as an `Err` result carrying the message. The
  printing and the process exit are not modelled.
- ColorPatternsInText: `colors.RESET` is the parameter `reset`. The colours
  module is not part of this model.
- ColorPatternsInText: Python slicing clamps out-of-range offsets. The model
  instead requires the engine's promise that every match lies in the line
  (`Reports`), so clamping never arises.
- ColorPatternsInText: zero-length matches are collected, merged and rendered
  as the code keeps them. A zero-length merged slice renders as `color` then
  reset with nothing between. Discarding such matches before the merge is not
  what `cli/patterns.py:34-39` does, so it is not modelled.
- An out-of-range slice given to the renderer is not an error path in
  `cli/patterns.py:51-64`, which has no range check. The renderer's
  precondition `Fits` states what the merge guarantees instead.
- `_ErrorReporter` (`cli/patterns.py:11-22`) is an interface only. It is
  represented by the `Err` result.
- Iterables are modelled as sequences. A one-shot iterator that is consumed
  twice is not modelled.
- The other modules of the repository are not part of this model: the
  calendar, the `where` tool, terminal handling, the regex helpers, the types,
  the constants and the colours.

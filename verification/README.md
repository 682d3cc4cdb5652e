# Graph utilities: LaTeX translation, series sanitizing, curve resampling

A Dafny model of the numeric core of `graph_utils.py`, the helper module of a
small function-plotting app. Three operations are modelled:

- `latex_to_python` turns a LaTeX formula into a call string over a `lib`
  namespace. The formula is parsed, the result is printed as text, and
  that text goes through a fixed sequence of Python `str.replace` calls.
  For the non-empty patterns the code uses, the model has Python's `in` and
  `str.replace` exactly: leftmost matches first, matches do not overlap, and
  the scan resumes after each replacement. Rules whose patterns overlap keep their literal,
  order-dependent effect. For example, `arcsin(x)` is caught by the earlier
  `sin` rule and becomes `arclib.sin(x)` (`LatexTranslate.ArcsinExample`).
- The array branch of `eval_function` blanks out (sets to NaN):
  - both end points of every step larger than 10000 between neighbours,
    which marks an asymptote;
  - every point outside the visible y range.
- `get_y_values_for_curve` reads a scattered curve off at given x values.
  At each x it takes the largest or smallest y of the points within 0.01
  of that x, and NaN when there are none.

Values that can be NaN are `Option<real>`, with `None` for NaN. Comparisons
with NaN are false, so NaN is never a jump and never out of range. numpy's
`max` and `min` return NaN as soon as one element is NaN.

Modules:
- `Wrappers`: `Option` and `Result`.
- `Floats`: float arrays and `Abs`.
- `Strings`: `in` and `str.replace`.
- `LatexTranslate`: `latex_to_python`.
- `Sanitizer`: `eval_function`.
- `Resampler`: `get_y_values_for_curve`.

## Model

| member | source | states |
|---|---|---|
| Strings.ContainsIff | graph_utils.py:27 | the `in` test holds exactly when the pattern occurs at some index |
| Strings.ReplaceAll | graph_utils.py:28 | replacing a pattern that does not occur returns the string unchanged |
| Strings.ReplaceAllUnchanged | graph_utils.py:32 | a replace leaves the string unchanged if and only if the pattern is absent or equals its replacement |
| Strings.ReplaceAllLength | graph_utils.py:32 | the result's length grows by the length difference once per occurrence found by the scan |
| Strings.ReplaceAllSkip | graph_utils.py:47 | a prefix in which no occurrence starts is copied through unchanged |
| Strings.ReplaceAllLeftmost | graph_utils.py:47 | the leftmost occurrence is replaced first and the scan resumes right after it |
| Strings.ReplaceAllFreshPrefix | graph_utils.py:47 | a prefix lacking the pattern's first character is copied through |
| Strings.ReplaceAllRestore | graph_utils.py:28 | replacing a pattern by a fresh marker and the marker back restores the original: replace is invertible when nothing can be confused |
| Strings.MissingPair | graph_utils.py:27 | a pattern with two adjacent characters that never appear adjacent in the string does not occur |
| LatexTranslate.ApplyRulesAppend | graph_utils.py:31-47 | the pass over the name list followed by the pass over the renaming table is one pass over their concatenation |
| LatexTranslate.ApplyRulesFirstHit | graph_utils.py:31-47 | rules before the first one whose pattern occurs do nothing; the pass continues from that rule's result |
| LatexTranslate.ApplyRulesNoHit | graph_utils.py:31-47 | a pass in which no rule's pattern occurs returns the text unchanged |
| LatexTranslate.LogCallHasLogParen | graph_utils.py:27-28 | any text containing `log(v, E)` also contains the base-10 pattern `log(` |
| LatexTranslate.Rewrite | graph_utils.py:26-47 | in the natural-log branch, text without `log(v, E)` is left as is; text with none of the generic patterns is left as is |
| LatexTranslate.NaturalLogBranch | graph_utils.py:27-28 | text containing both `log` and `, E)` is rewritten by the single replacement of `log(v, E)` by `lib.log(v)`, and by nothing else |
| LatexTranslate.GenericBranch | graph_utils.py:29-47 | any other text goes through the loop over the five direct names and then the loop over the renaming table, each rule as one `str.replace` on the previous result |
| LatexTranslate.LatexToPython | graph_utils.py:14-52 | the result is an error exactly when the parse fails, with the message prefixed by `Invalid LaTeX: `; on success the parsed expression is returned, and the code is its printed form after either the single natural-log replacement (when the text has `log` and `, E)`) or the direct-name loop followed by the renaming-table loop |
| LatexTranslate.NaturalLogExample | graph_utils.py:27-28 | `log(x, E)` becomes `lib.log(x)` |
| LatexTranslate.NaturalLogSkipsGenericExample | graph_utils.py:27-32 | in the natural-log branch no generic rule applies: `sin(x) + log(x, E)` becomes `sin(x) + lib.log(x)` |
| LatexTranslate.Log10Example | graph_utils.py:37 | `log(x)` becomes `lib.log10(x)` |
| LatexTranslate.ArcsinExample | graph_utils.py:31-38 | `arcsin(x)` becomes `arclib.sin(x)` because the `sin` rule runs before the inverse-sine rule |
| Sanitizer.AbsDiff | graph_utils.py:71 | one step per pair of neighbours; a step is NaN exactly when either neighbour is NaN, and otherwise is the non-negative distance between them |
| Sanitizer.JumpMask | graph_utils.py:71-73 | the mask `abs(diff(y)) > 10000` has one entry per gap and is true exactly at the jumps of `y`, never where either neighbour is NaN |
| Sanitizer.MaskNaN | graph_utils.py:74 | a masked assignment of NaN blanks exactly the masked entries and keeps every other one |
| Sanitizer.MaskGapEnds | graph_utils.py:72 | assigning through the view `y[1:]` blanks the right-hand point of each flagged gap and nothing else |
| Sanitizer.MaskGapStarts | graph_utils.py:73 | assigning through the view `y[:-1]` blanks the left-hand point of each flagged gap and nothing else |
| Sanitizer.RangeMask | graph_utils.py:74 | the range mask is true exactly at present values below the lower or above the upper bound |
| Sanitizer.Sanitize | graph_utils.py:69-74 | same length; a point ends up NaN if and only if it was NaN, is an end point of a jump over the threshold, or lies outside the range; every surviving value is the original one and lies in the range |
| Sanitizer.SanitizeLeavesNoJump | graph_utils.py:70-73 | no step over the threshold remains after sanitizing |
| Sanitizer.SanitizeIdempotent | graph_utils.py:70-74 | sanitizing twice gives the same result as sanitizing once |
| Sanitizer.PassOrderMatters | graph_utils.py:72-74 | running the range filter before the jump filter gives a different result on `[0, 20000]` with range `[-5, 5]` |
| Sanitizer.EvalFunction | graph_utils.py:54-75 | the result has the input's length and never invents a value; only a numpy array with both bounds given is filtered, and then a point becomes NaN exactly when it was NaN, is an end point of a jump over 10000, or lies outside the bounds, so every surviving value lies in the bounds; every other call returns the evaluated value unchanged |
| Resampler.Insert | graph_utils.py:191 | inserting into an x-sorted list keeps it sorted and adds exactly the one point |
| Resampler.SortByX | graph_utils.py:191-193 | the points come out ordered by x with NaN last, as a permutation of the input |
| Resampler.Matching | graph_utils.py:201 | a value is among the matches exactly when some point within the tolerance of x carries it |
| Resampler.Extreme | graph_utils.py:203 | the maximum (minimum) is NaN exactly when an element is NaN; otherwise it is an element that bounds all the others |
| Resampler.Pick | graph_utils.py:201-205 | NaN when no point is near x; a number only when some near point carries it, and then it bounds every near point's y; NaN otherwise only when a near point's y is NaN |
| Resampler.PickSameMembers | graph_utils.py:191-203 | the value read off depends only on which points exist, not on their order or repetition |
| Resampler.PickMaxAtLeastMin | graph_utils.py:203 | the maximum and the minimum are defined at the same x, and the maximum is never below the minimum |
| Resampler.GetYValuesForCurve | graph_utils.py:177-207 | one value per target x, equal to what would be read off from the unsorted points, so the sort does not change the result |

## Left out

- The LaTeX parser (`parse_latex`, line 20) and the printing of its result (line 23) are parameters of `LatexToPython`. Their behaviour is outside the model. In particular, the model does not know whether a natural logarithm prints as `log(x, E)` or as `log(x)`; the second form takes the generic branch and becomes `lib.log10(x)`.
- The two debug writes to the page (lines 24 and 49) are left out; they have no effect on results.
- The `try` block catches every exception, but the model has only parse failures. Printing is total in the model.
- `eval` of the call string (lines 59 and 68) is not modelled. Neither are the names it binds (`lib`, `log`, `log10`, `E`). `EvalFunction` takes the evaluated value as an input.
- The implicit-function case (lines 58-59) returns the evaluated value as is, and the model does the same. The tuple's components are not modelled.
- Sympy as `lib` is not modelled: only a numpy array argument is filtered. An array argument whose expression evaluates to a scalar makes numpy's `diff` raise. An array of integer type cannot hold NaN. Both are left out; the evaluated value is a float array.
- Floating point is modelled by exact reals. Infinities, rounding and the `0.01` and `10000` comparisons under rounding are not modelled.
- The masks write into the evaluated array in place (lines 72-74). The model returns a new sequence instead. The two agree on the returned value.
- When the call string is the bare variable (the LaTeX `x` translates to `x`), `eval` returns the caller's grid object itself (line 68). The writes at lines 72-74 then also put NaN into the caller's grid: with grid `[-10, -5, 0, 5, 10]` and bounds `[-5, 5]`, the caller's `x` becomes `[nan, -5, 0, 5, nan]`. This side effect on an aliased grid is not modelled.
- `SortByX` is a stable insertion sort, while numpy's `argsort` default is not stable. `GetYValuesForCurve` shows the result is the same for every ordering of the points, so the difference does not matter.
- GetYValuesForCurve: requires equally long coordinate arrays. The source indexes the y array with the x array's permutation, which raises or drops points when the lengths differ.
- Rewrite: the contract states only when the text is left unchanged. The full behaviour of each branch is stated by `LatexTranslate.NaturalLogBranch` and `LatexTranslate.GenericBranch`, with the examples as instances.
- The rest of the repository (plot construction, tick formatting, the page layout) is not part of this model.

## Notes

The jump filter and the range filter do not commute. On `[0, 20000]` with
range `[-5, 5]`, filtering jumps first blanks both points. Filtering the
range first keeps `0` (`Sanitizer.PassOrderMatters`). The model follows the
code's order (graph_utils.py:72-74).

/** The array branch of `eval_function`: after the user's expression has
    been evaluated on a grid of x values, points next to a near-vertical
    jump (an asymptote) and points outside the visible y range are blanked
    out with NaN, so that the plot shows a gap instead of a spurious line. */
module Sanitizer {
  import opened Wrappers
  import opened Floats

  /** A step between neighbours larger than this is treated as an asymptote. */
  const JumpThreshold: real := 10000.0

  /** The number of differences of an array of length `n`. */
  function Gaps(n: nat): nat {
    if n == 0 then 0 else n - 1
  }

  /** The step from `y[i]` to `y[i + 1]` exceeds the threshold; a NaN on
      either side means no jump, since comparisons with NaN are false. */
  predicate Jump(y: Series, i: int) {
    0 <= i < |y| - 1 && y[i].Some? && y[i + 1].Some? &&
    Abs(y[i + 1].value - y[i].value) > JumpThreshold
  }

  /** `y[i]` is an end point of some jump. */
  predicate NearJump(y: Series, i: int) {
    Jump(y, i - 1) || Jump(y, i)
  }

  /** A present value outside `[lo, hi]`; NaN is never outside. */
  predicate Outside(v: Option<real>, lo: real, hi: real) {
    v.Some? && (v.value < lo || v.value > hi)
  }

  /** numpy's `abs(y[i + 1] - y[i])`, NaN when either operand is NaN. */
  function AbsStep(a: Option<real>, b: Option<real>): Option<real> {
    if a.Some? && b.Some? then Some(Abs(b.value - a.value)) else None
  }

  /** numpy's `abs(diff(y))`. */
  function AbsDiff(y: Series): (dy: Series)
    ensures |dy| == Gaps(|y|)
    ensures forall i | 0 <= i < |dy| :: dy[i].None? <==> y[i].None? || y[i + 1].None?
    ensures forall i | 0 <= i < |dy| && dy[i].Some? ::
              dy[i].value >= 0.0 && (dy[i].value == y[i + 1].value - y[i].value || dy[i].value == y[i].value - y[i + 1].value)
  {
    seq(Gaps(|y|), i requires 0 <= i < Gaps(|y|) => AbsStep(y[i], y[i + 1]))
  }

  /** `dy > threshold` on `dy = abs(diff(y))`: a gap is flagged exactly
      when it is a jump of `y`, since comparisons with NaN are false. */
  function JumpMask(y: Series): (mask: seq<bool>)
    ensures |mask| == Gaps(|y|)
    ensures forall i | 0 <= i < Gaps(|y|) :: mask[i] <==> Jump(y, i)
  {
    var dy := AbsDiff(y);
    seq(|dy|, i requires 0 <= i < |dy| => dy[i].Some? && dy[i].value > JumpThreshold)
  }

  /** numpy's masked assignment `view[mask] = nan`. */
  function MaskNaN(view: Series, mask: seq<bool>): (r: Series)
    requires |mask| == |view|
    ensures |r| == |view|
    ensures forall i | 0 <= i < |r| :: r[i] == if mask[i] then None else view[i]
    decreases |view|
  {
    if |view| == 0 then []
    else [if mask[0] then None else view[0]] + MaskNaN(view[1..], mask[1..])
  }

  /** `y[1:][mask] = nan`: the right-hand point of each flagged gap. */
  function MaskGapEnds(y: Series, mask: seq<bool>): (r: Series)
    requires |mask| == Gaps(|y|)
    ensures |r| == |y|
    ensures forall i | 0 <= i < |y| :: r[i] == if i > 0 && mask[i - 1] then None else y[i]
  {
    if |y| == 0 then y else y[..1] + MaskNaN(y[1..], mask)
  }

  /** `y[:-1][mask] = nan`: the left-hand point of each flagged gap. */
  function MaskGapStarts(y: Series, mask: seq<bool>): (r: Series)
    requires |mask| == Gaps(|y|)
    ensures |r| == |y|
    ensures forall i | 0 <= i < |y| :: r[i] == if i < |mask| && mask[i] then None else y[i]
  {
    if |y| == 0 then y else MaskNaN(y[..|y| - 1], mask) + y[|y| - 1..]
  }

  /** The comparison `(y < lo) | (y > hi)`, false for NaN. */
  function RangeMask(y: Series, lo: real, hi: real): (mask: seq<bool>)
    ensures |mask| == |y|
    ensures forall i | 0 <= i < |y| :: mask[i] <==> Outside(y[i], lo, hi)
    decreases |y|
  {
    if |y| == 0 then []
    else [Outside(y[0], lo, hi)] + RangeMask(y[1..], lo, hi)
  }

  /** The three masked assignments in the order the code performs them. The
      jump mask is computed once, from the array before any masking. */
  function Sanitize(y: Series, lo: real, hi: real): (r: Series)
    ensures |r| == |y|
    ensures forall i | 0 <= i < |y| :: r[i].None? <==> y[i].None? || NearJump(y, i) || Outside(y[i], lo, hi)
    ensures forall i | 0 <= i < |y| && r[i].Some? :: r[i] == y[i] && lo <= r[i].value <= hi
  {
    var mask := JumpMask(y);
    var blanked := MaskGapStarts(MaskGapEnds(y, mask), mask);
    MaskNaN(blanked, RangeMask(blanked, lo, hi))
  }

  /** No jump survives sanitizing. */
  lemma SanitizeLeavesNoJump(y: Series, lo: real, hi: real)
    ensures forall i :: !Jump(Sanitize(y, lo, hi), i)
  {
    var r := Sanitize(y, lo, hi);
    forall i | 0 <= i < |r| - 1 && r[i].Some? && r[i + 1].Some?
      ensures !Jump(r, i)
    {
      assert !NearJump(y, i);
      assert r[i] == y[i] && r[i + 1] == y[i + 1];
    }
  }

  /** Sanitizing a second time changes nothing. */
  lemma SanitizeIdempotent(y: Series, lo: real, hi: real)
    ensures Sanitize(Sanitize(y, lo, hi), lo, hi) == Sanitize(y, lo, hi)
  {
    var r := Sanitize(y, lo, hi);
    var rr := Sanitize(r, lo, hi);
    SanitizeLeavesNoJump(y, lo, hi);
    forall i | 0 <= i < |r|
      ensures rr[i] == r[i]
    {
      assert !NearJump(r, i);
    }
  }

  /** The range filter run before the jump filter. */
  function SanitizeRangeFirst(y: Series, lo: real, hi: real): Series {
    var clipped := MaskNaN(y, RangeMask(y, lo, hi));
    var mask := JumpMask(clipped);
    MaskGapStarts(MaskGapEnds(clipped, mask), mask)
  }

  /** The order of the two filters matters: a jump to a value outside the
      range blanks both of its end points, but once the far end is blanked
      by the range filter first, no jump remains to blank the near one. */
  lemma PassOrderMatters()
    ensures Sanitize([Some(0.0), Some(20000.0)], -5.0, 5.0) == [None, None]
    ensures SanitizeRangeFirst([Some(0.0), Some(20000.0)], -5.0, 5.0) == [Some(0.0), None]
  {
    var y: Series := [Some(0.0), Some(20000.0)];
    assert Jump(y, 0);
    assert NearJump(y, 1);
    var clipped := MaskNaN(y, RangeMask(y, -5.0, 5.0));
    assert clipped == [Some(0.0), None];
    assert !Jump(clipped, 0);
  }

  /** What `eval_function` was called with, as far as the sanitizing is
      concerned: an implicit `(x, y)` pair, a numpy array, or anything else
      (a scalar or a symbol). */
  datatype Argument = ImplicitPair | Grid | Other

  /** `eval_function`, given the value `y` the expression evaluated to.
      Only a grid with both y bounds given is sanitized; every other value
      is returned as evaluated. */
  function EvalFunction(arg: Argument, y: Series, lower: Option<real>, upper: Option<real>): (r: Series)
    ensures |r| == |y|
    ensures forall i | 0 <= i < |y| && r[i].Some? :: r[i] == y[i]
    ensures arg.Grid? && lower.Some? && upper.Some? ==>
              forall i | 0 <= i < |r| && r[i].Some? :: lower.value <= r[i].value <= upper.value
    ensures arg.Grid? && lower.Some? && upper.Some? ==>
              forall i | 0 <= i < |y| :: r[i].None? <==> y[i].None? || NearJump(y, i) || Outside(y[i], lower.value, upper.value)
    ensures !(arg.Grid? && lower.Some? && upper.Some?) ==> r == y
  {
    match arg
    case ImplicitPair => y
    case Grid =>
      if lower.Some? && upper.Some? then Sanitize(y, lower.value, upper.value) else y
    case Other => y
  }
}

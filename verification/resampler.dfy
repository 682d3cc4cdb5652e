/** `get_y_values_for_curve`: a curve given as scattered points is read off
    at a list of x values, taking for each x the largest (or smallest) y of
    the points whose x lies within a fixed tolerance. */
module Resampler {
  import opened Wrappers
  import opened Floats

  /** Two x values closer than this are taken to be the same. */
  const Tolerance: real := 0.01

  datatype Point = Point(x: Option<real>, y: Option<real>)

  /** The points of a curve, pairing the two coordinate arrays. */
  function Zip(xs: Series, ys: Series): (pts: seq<Point>)
    requires |xs| == |ys|
    ensures |pts| == |xs|
  {
    seq(|xs|, i requires 0 <= i < |xs| => Point(xs[i], ys[i]))
  }

  /** `abs(p.x - x) < tolerance`, false when either value is NaN. */
  predicate Near(p: Point, x: Option<real>) {
    p.x.Some? && x.Some? && Abs(p.x.value - x.value) < Tolerance
  }

  // Sorting by x, the way numpy's `argsort` orders floats: ascending, NaN last.

  predicate KeyLe(a: Option<real>, b: Option<real>) {
    b.None? || (a.Some? && a.value <= b.value)
  }

  predicate SortedByX(pts: seq<Point>) {
    forall i, j | 0 <= i < j < |pts| :: KeyLe(pts[i].x, pts[j].x)
  }

  /** The order on keys is total. */
  lemma KeyLeTotal(a: Option<real>, b: Option<real>)
    ensures KeyLe(a, b) || KeyLe(b, a)
  {
  }

  /** Inserts `p` into sorted `pts` in front of the first point with a larger key. */
  function Insert(p: Point, pts: seq<Point>): (r: seq<Point>)
    requires SortedByX(pts)
    ensures SortedByX(r)
    ensures multiset(r) == multiset(pts) + multiset{p}
    decreases |pts|
  {
    if |pts| == 0 then [p]
    else if KeyLe(p.x, pts[0].x) then
      assert [p] + pts == [p] + ([pts[0]] + pts[1..]);
      [p] + pts
    else
      KeyLeTotal(p.x, pts[0].x);
      var rest := Insert(p, pts[1..]);
      assert pts == [pts[0]] + pts[1..];
      InsertHead(pts[0], rest, p, pts[1..]);
      [pts[0]] + rest
  }

  /** A key no larger than any in `rest` can be put in front of it. */
  lemma InsertHead(h: Point, rest: seq<Point>, p: Point, tail: seq<Point>)
    requires SortedByX(rest) && SortedByX([h] + tail)
    requires multiset(rest) == multiset(tail) + multiset{p}
    requires KeyLe(h.x, p.x)
    ensures SortedByX([h] + rest)
  {
    forall q | q in rest
      ensures KeyLe(h.x, q.x)
    {
      assert q in multiset(rest);
      if q != p {
        assert q in multiset(tail);
        var k :| 0 <= k < |tail| && tail[k] == q;
        assert ([h] + tail)[0] == h && ([h] + tail)[k + 1] == q;
      }
    }
    forall i, j | 0 <= i < j < |[h] + rest|
      ensures KeyLe(([h] + rest)[i].x, ([h] + rest)[j].x)
    {
      if i == 0 {
        assert ([h] + rest)[j] == rest[j - 1];
        assert rest[j - 1] in rest;
      }
    }
  }

  /** The curve's points reordered by x. */
  function SortByX(pts: seq<Point>): (r: seq<Point>)
    ensures SortedByX(r)
    ensures multiset(r) == multiset(pts)
    decreases |pts|
  {
    if |pts| == 0 then []
    else
      assert pts == [pts[0]] + pts[1..];
      Insert(pts[0], SortByX(pts[1..]))
  }

  /** `y_sorted[abs(x_sorted - x) < tolerance]`: the y values of the points
      near `x`, in order. */
  function Matching(pts: seq<Point>, x: Option<real>): (ys: Series)
    ensures |ys| <= |pts|
    ensures forall v :: v in ys <==> exists p | p in pts :: Near(p, x) && p.y == v
    decreases |pts|
  {
    if |pts| == 0 then []
    else
      var rest := Matching(pts[1..], x);
      assert forall p | p in pts :: p == pts[0] || p in pts[1..];
      if Near(pts[0], x) then [pts[0].y] + rest else rest
  }

  /** `max` or `min` of two values, NaN when either is NaN. */
  function Better(a: Option<real>, b: Option<real>, takeMax: bool): Option<real> {
    if a.None? || b.None? then None
    else if takeMax then (if a.value >= b.value then a else b)
    else (if a.value <= b.value then a else b)
  }

  /** `v` is no better than `best` in the chosen direction. */
  predicate Bounded(v: real, best: real, takeMax: bool) {
    if takeMax then v <= best else v >= best
  }

  /** numpy's `max` or `min` of a non-empty array: NaN if any element is NaN,
      otherwise an element that bounds all the others. */
  function Extreme(ys: Series, takeMax: bool): (r: Option<real>)
    requires |ys| > 0
    ensures r.None? <==> None in ys
    ensures r.Some? ==> r in ys && forall v | v in ys :: v.Some? && Bounded(v.value, r.value, takeMax)
    decreases |ys|
  {
    if |ys| == 1 then ys[0]
    else
      assert forall v | v in ys :: v == ys[0] || v in ys[1..];
      Better(ys[0], Extreme(ys[1..], takeMax), takeMax)
  }

  /** The value read off at `x`: NaN if no point is near it. */
  function Pick(pts: seq<Point>, x: Option<real>, takeMax: bool): (r: Option<real>)
    ensures (forall p | p in pts :: !Near(p, x)) ==> r.None?
    ensures r.None? ==> (forall p | p in pts :: !Near(p, x)) || exists p | p in pts :: Near(p, x) && p.y.None?
    ensures r.Some? ==> exists p | p in pts :: Near(p, x) && p.y == r
    ensures r.Some? ==> forall p | p in pts && Near(p, x) :: p.y.Some? && Bounded(p.y.value, r.value, takeMax)
  {
    var ys := Matching(pts, x);
    assert forall p | p in pts && Near(p, x) :: p.y in ys;
    if |ys| > 0 then
      var r := Extreme(ys, takeMax);
      assert r.None? ==> None in ys;
      r
    else None
  }

  /** The value read off depends only on which points there are, not on
      their order or multiplicity. */
  lemma PickSameMembers(a: seq<Point>, b: seq<Point>, x: Option<real>, takeMax: bool)
    requires forall p :: p in a <==> p in b
    ensures Pick(a, x, takeMax) == Pick(b, x, takeMax)
  {
    var ra := Pick(a, x, takeMax);
    var rb := Pick(b, x, takeMax);
    if ra.Some? && rb.Some? {
      var pa :| pa in a && Near(pa, x) && pa.y == ra;
      var pb :| pb in b && Near(pb, x) && pb.y == rb;
      assert Bounded(pb.y.value, ra.value, takeMax);
      assert Bounded(pa.y.value, rb.value, takeMax);
    }
  }

  /** Reading off the maximum never gives less than reading off the minimum. */
  lemma PickMaxAtLeastMin(pts: seq<Point>, x: Option<real>)
    ensures Pick(pts, x, true).Some? <==> Pick(pts, x, false).Some?
    ensures Pick(pts, x, true).Some? ==> Pick(pts, x, false).value <= Pick(pts, x, true).value
  {
    var hi := Pick(pts, x, true);
    var lo := Pick(pts, x, false);
    if hi.Some? {
      var p :| p in pts && Near(p, x) && p.y == hi;
      assert Bounded(p.y.value, lo.value, false) || lo.None?;
    }
    if lo.Some? {
      var p :| p in pts && Near(p, x) && p.y == lo;
      assert Bounded(p.y.value, hi.value, true) || hi.None?;
    }
  }

  /** `get_y_values_for_curve`: the curve's points are sorted by x, and each
      x of `xFill` is read off from the sorted points. */
  function GetYValuesForCurve(xFill: Series, cx: Series, cy: Series, takeMax: bool): (r: Series)
    requires |cx| == |cy|
    ensures |r| == |xFill|
    ensures forall i | 0 <= i < |xFill| :: r[i] == Pick(Zip(cx, cy), xFill[i], takeMax)
  {
    var sorted := SortByX(Zip(cx, cy));
    assert forall p :: p in sorted <==> p in multiset(sorted);
    assert forall p :: p in Zip(cx, cy) <==> p in multiset(Zip(cx, cy));
    forall x {
      PickSameMembers(sorted, Zip(cx, cy), x, takeMax);
    }
    seq(|xFill|, i requires 0 <= i < |xFill| => Pick(sorted, xFill[i], takeMax))
  }
}

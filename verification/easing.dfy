/**
 * The easing library: four polynomial presets looked up by name, a single-axis
 * cubic Bezier, the two-pass custom curve built from it, and the interpolation
 * between two keyframe values.  All of it is exact arithmetic over reals.
 */
module Easing {

  /** One control point of the curve editor, in the unit square when authored. */
  datatype Point = Point(x: real, y: real)

  /** The two inner control points of a custom curve (the end points are fixed at (0,0) and (1,1)). */
  datatype Curve = Curve(p1: Point, p2: Point)

  /** The easing of one segment: a preset looked up by name, or a custom curve. */
  datatype SegmentEasing = Named(name: string) | Custom(curve: Curve)

  predicate InUnit(v: real) { 0.0 <= v <= 1.0 }

  predicate PointInUnit(p: Point) { InUnit(p.x) && InUnit(p.y) }

  /** Every control point of the curve lies in [0,1] x [0,1]. */
  predicate CurveInUnit(c: Curve) { PointInUnit(c.p1) && PointInUnit(c.p2) }

  /** An easing whose custom curve, if any, keeps its handles in the unit square. */
  predicate WellFormed(e: SegmentEasing) {
    e.Custom? ==> CurveInUnit(e.curve)
  }

  predicate IsPresetName(name: string) {
    name == "linear" || name == "ease-in" || name == "ease-out" || name == "ease-in-out"
  }

  /**
   * The preset table; a name outside it falls back to the linear preset.
   * Every preset fixes 0 and 1 and maps [0,1] into [0,1].
   */
  function EaseNamed(name: string, t: real): (r: real)
    ensures t == 0.0 ==> r == 0.0
    ensures t == 1.0 ==> r == 1.0
    ensures !IsPresetName(name) ==> r == t
  {
    if name == "linear" then t
    else if name == "ease-in" then t * t
    else if name == "ease-out" then t * (2.0 - t)
    else if name == "ease-in-out" then
      if t < 0.5 then 2.0 * t * t else -1.0 + (4.0 - 2.0 * t) * t
    else t
  }

  /** Single-axis cubic Bezier with control values p0..p3 at parameter t. */
  function CubicBezier(t: real, p0: real, p1: real, p2: real, p3: real): (r: real)
    ensures t == 0.0 ==> r == p0
    ensures t == 1.0 ==> r == p3
  {
    var s := 1.0 - t;
    s * s * s * p0 + 3.0 * s * s * t * p1 + 3.0 * s * t * t * p2 + t * t * t * p3
  }

  /**
   * The custom curve: an x-pass at t, then a y-pass at the value the x-pass gave.
   * This is not an inversion of the parametric curve; it is what the editor computes.
   */
  function CustomEase(c: Curve, t: real): (r: real)
  {
    var u := CubicBezier(t, 0.0, c.p1.x, c.p2.x, 1.0);
    CubicBezier(u, 0.0, c.p1.y, c.p2.y, 1.0)
  }

  /** The eased fraction of a segment. */
  function Eased(e: SegmentEasing, t: real): (r: real)
  {
    match e
    case Named(name) => EaseNamed(name, t)
    case Custom(c) => CustomEase(c, t)
  }

  /** The value a fraction t of the way from a to b, under easing e. */
  function Interpolate(a: real, b: real, t: real, e: SegmentEasing): (r: real)
  {
    a + (b - a) * Eased(e, t)
  }

  /**
   * The control points the curve editor shows for a preset name; any other
   * name (including "custom") gets the default handles.
   */
  function PresetControlPoints(name: string): (c: Curve)
    ensures CurveInUnit(c)
    ensures !IsPresetName(name) ==> c == Curve(Point(0.25, 0.25), Point(0.75, 0.75))
  {
    if name == "linear" then Curve(Point(0.0, 0.0), Point(1.0, 1.0))
    else if name == "ease-in" then Curve(Point(0.42, 0.0), Point(1.0, 1.0))
    else if name == "ease-out" then Curve(Point(0.0, 0.0), Point(0.58, 1.0))
    else if name == "ease-in-out" then Curve(Point(0.42, 0.0), Point(0.58, 1.0))
    else Curve(Point(0.25, 0.25), Point(0.75, 0.75))
  }

  /** Math.max(0, Math.min(1, v)): the clamp applied to a dragged handle. */
  function Clamp01(v: real): (r: real)
    ensures InUnit(r)
    ensures InUnit(v) ==> r == v
    ensures v < 0.0 ==> r == 0.0
    ensures v > 1.0 ==> r == 1.0
  {
    if 1.0 < v then 1.0 else if v < 0.0 then 0.0 else v
  }

  lemma MulNonneg(a: real, b: real)
    requires 0.0 <= a && 0.0 <= b
    ensures 0.0 <= a * b
  {
  }

  /** The Bernstein weights of a cubic are non-negative on [0,1] and sum to one. */
  lemma BernsteinWeights(t: real)
    requires InUnit(t)
    ensures 0.0 <= (1.0 - t) * (1.0 - t) * (1.0 - t)
    ensures 0.0 <= 3.0 * (1.0 - t) * (1.0 - t) * t
    ensures 0.0 <= 3.0 * (1.0 - t) * t * t
    ensures 0.0 <= t * t * t
    ensures (1.0 - t) * (1.0 - t) * (1.0 - t) + 3.0 * (1.0 - t) * (1.0 - t) * t
            + 3.0 * (1.0 - t) * t * t + t * t * t == 1.0
  {
    var s := 1.0 - t;
    MulNonneg(s, s);
    MulNonneg(s * s, s);
    MulNonneg(s * s, t);
    MulNonneg(t, t);
    MulNonneg(s, t * t);
    MulNonneg(t * t, t);
  }

  /**
   * On [0,1] a cubic Bezier stays within any interval that holds its four
   * control values (the convex-hull property).
   */
  lemma CubicBezierInHull(t: real, p0: real, p1: real, p2: real, p3: real, lo: real, hi: real)
    requires InUnit(t)
    requires lo <= p0 <= hi && lo <= p1 <= hi && lo <= p2 <= hi && lo <= p3 <= hi
    ensures lo <= CubicBezier(t, p0, p1, p2, p3) <= hi
  {
    var s := 1.0 - t;
    var w0, w1, w2, w3 := s * s * s, 3.0 * s * s * t, 3.0 * s * t * t, t * t * t;
    BernsteinWeights(t);
    assert CubicBezier(t, p0, p1, p2, p3) == w0 * p0 + w1 * p1 + w2 * p2 + w3 * p3;
    ConvexCombination(w0, w1, w2, w3, p0, p1, p2, p3, lo, hi);
  }

  /** A convex combination of four values lies within any interval holding them. */
  lemma ConvexCombination(w0: real, w1: real, w2: real, w3: real,
                          p0: real, p1: real, p2: real, p3: real, lo: real, hi: real)
    requires 0.0 <= w0 && 0.0 <= w1 && 0.0 <= w2 && 0.0 <= w3 && w0 + w1 + w2 + w3 == 1.0
    requires lo <= p0 <= hi && lo <= p1 <= hi && lo <= p2 <= hi && lo <= p3 <= hi
    ensures lo <= w0 * p0 + w1 * p1 + w2 * p2 + w3 * p3 <= hi
  {
    MulNonneg(w0, p0 - lo); MulNonneg(w1, p1 - lo); MulNonneg(w2, p2 - lo); MulNonneg(w3, p3 - lo);
    MulNonneg(w0, hi - p0); MulNonneg(w1, hi - p1); MulNonneg(w2, hi - p2); MulNonneg(w3, hi - p3);
  }

  /** Every preset maps [0,1] into [0,1]; so does the linear fallback. */
  lemma EaseNamedInUnit(name: string, t: real)
    requires InUnit(t)
    ensures InUnit(EaseNamed(name, t))
  {
    if name == "ease-in" {
      MulNonneg(t, t);
      MulNonneg(t, 1.0 - t);
    } else if name == "ease-out" {
      MulNonneg(t, 2.0 - t);
      MulNonneg(1.0 - t, 1.0 - t);
    } else if name == "ease-in-out" {
      if t < 0.5 {
        MulNonneg(t, t);
        MulNonneg(t, 0.5 - t);
      } else {
        MulNonneg(1.0 - t, 1.0 - t);
        MulNonneg(1.0 - t, t - 0.5);
      }
    }
  }

  /** Whatever its handles, the two-pass custom curve maps 0 to 0 and 1 to 1. */
  lemma CustomEaseEndpoints(c: Curve)
    ensures CustomEase(c, 0.0) == 0.0
    ensures CustomEase(c, 1.0) == 1.0
  {
    assert CubicBezier(0.0, 0.0, c.p1.x, c.p2.x, 1.0) == 0.0;
    assert CubicBezier(1.0, 0.0, c.p1.x, c.p2.x, 1.0) == 1.0;
  }

  /** With handles in the unit square, the custom curve maps [0,1] into [0,1]. */
  lemma CustomEaseInUnit(c: Curve, t: real)
    requires CurveInUnit(c) && InUnit(t)
    ensures InUnit(CustomEase(c, t))
  {
    var u := CubicBezier(t, 0.0, c.p1.x, c.p2.x, 1.0);
    CubicBezierInHull(t, 0.0, c.p1.x, c.p2.x, 1.0, 0.0, 1.0);
    CubicBezierInHull(u, 0.0, c.p1.y, c.p2.y, 1.0, 0.0, 1.0);
  }

  /** Every easing, preset or custom, fixes both ends of the unit interval. */
  lemma EasedEndpoints(e: SegmentEasing)
    ensures Eased(e, 0.0) == 0.0 && Eased(e, 1.0) == 1.0
  {
    if e.Custom? {
      CustomEaseEndpoints(e.curve);
    }
  }

  /** A well-formed easing maps [0,1] into [0,1]. */
  lemma EasedInUnit(e: SegmentEasing, t: real)
    requires WellFormed(e) && InUnit(t)
    ensures InUnit(Eased(e, t))
  {
    match e
    case Named(name) => EaseNamedInUnit(name, t);
    case Custom(c) => CustomEaseInUnit(c, t);
  }

  /** interpolate(a, b, 0, e) == a and interpolate(a, b, 1, e) == b for every easing. */
  lemma InterpolateEndpoints(a: real, b: real, e: SegmentEasing)
    ensures Interpolate(a, b, 0.0, e) == a
    ensures Interpolate(a, b, 1.0, e) == b
  {
    EasedEndpoints(e);
  }

  /** For t in [0,1] and a well-formed easing, the interpolated value lies between a and b. */
  lemma InterpolateBetween(a: real, b: real, t: real, e: SegmentEasing)
    requires WellFormed(e) && InUnit(t)
    ensures a <= b ==> a <= Interpolate(a, b, t, e) <= b
    ensures b <= a ==> b <= Interpolate(a, b, t, e) <= a
  {
    var f := Eased(e, t);
    EasedInUnit(e, t);
    if a <= b {
      MulNonneg(b - a, f);
      MulNonneg(b - a, 1.0 - f);
    } else {
      MulNonneg(a - b, f);
      MulNonneg(a - b, 1.0 - f);
    }
  }

  /**
   * The editor's handles for the "linear" preset, (0,0) and (1,1), do not give
   * linear motion once they become a custom curve: the two passes compose two
   * smoothstep curves, so a quarter of the way in the value is far below 1/4.
   */
  lemma LinearHandlesAreNotLinear()
    ensures CustomEase(PresetControlPoints("linear"), 0.25) < 0.1
    ensures CustomEase(PresetControlPoints("linear"), 0.5) == 0.5
  {
    var c := PresetControlPoints("linear");
    assert CubicBezier(0.25, 0.0, 0.0, 1.0, 1.0) == 0.15625;
    assert CubicBezier(0.5, 0.0, 0.0, 1.0, 1.0) == 0.5;
  }
}

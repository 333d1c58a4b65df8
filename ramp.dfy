/** What the ramp table holds at one sample t: the bracketing segment and its
    easing for Linear / Ease / Constant, the four-point spline for Cardinal and
    BSpline, and the black-to-white fallback for lists of fewer than two points. */
module Ramp {
  import opened Numeric
  import opened Colors
  import opened HsvHsl
  import opened Wrappers
  import opened Sorting
  import opened Points
  import opened Interp
  import E = Effect

  /** The index of the last point at or below t, if any. */
  function LastAtOrBelow(ps: seq<ControlPoint>, t: real): (r: Option<nat>)
    ensures r.Some? ==> r.value < |ps| && ps[r.value].position <= t
    ensures r.Some? ==> forall j :: r.value < j < |ps| ==> ps[j].position > t
    ensures r.None? ==> forall j :: 0 <= j < |ps| ==> ps[j].position > t
  {
    if ps == [] then None
    else if ps[|ps| - 1].position <= t then Some(|ps| - 1)
    else LastAtOrBelow(ps[..|ps| - 1], t)
  }

  /** The index of the first point above t, if any. */
  function FirstAbove(ps: seq<ControlPoint>, t: real): (r: Option<nat>)
    ensures r.Some? ==> r.value < |ps| && ps[r.value].position > t
    ensures r.Some? ==> forall j :: 0 <= j < r.value ==> ps[j].position <= t
    ensures r.None? ==> forall j :: 0 <= j < |ps| ==> ps[j].position <= t
  {
    if ps == [] then None
    else if ps[0].position > t then Some(0)
    else
      match FirstAbove(ps[1..], t)
      case None => None
      case Some(k) => Some(k + 1)
  }

  datatype Segment = Segment(p1: ControlPoint, p2: ControlPoint)

  /** p1 is the last point at or below t (the first point when there is none),
      p2 the first point above t (the last point when there is none). Whenever
      p2 lies strictly after p1, t lies in [p1, p2). */
  function Bracket(ps: seq<ControlPoint>, t: real): (s: Segment)
    requires |ps| > 0
    ensures s.p1 in ps && s.p2 in ps
    ensures s.p2.position > s.p1.position ==> s.p1.position <= t < s.p2.position
  {
    var p1 := match LastAtOrBelow(ps, t) case Some(i) => ps[i] case None => ps[0];
    var p2 := match FirstAbove(ps, t) case Some(j) => ps[j] case None => ps[|ps| - 1];
    Segment(p1, p2)
  }

  /** The position of t inside a segment: 0 for an empty or reversed segment. */
  function LocalT(s: Segment, t: real): (u: real)
    ensures s.p2.position <= s.p1.position ==> u == 0.0
    ensures s.p1.position <= t < s.p2.position ==> 0.0 <= u < 1.0
    ensures t == s.p1.position ==> u == 0.0
    ensures t < s.p1.position < s.p2.position ==> u < 0.0
  {
    if s.p2.position > s.p1.position then
      QuotientBounds01(t - s.p1.position, s.p2.position - s.p1.position);
      (t - s.p1.position) / (s.p2.position - s.p1.position)
    else 0.0
  }

  /** On any non-empty list, sorted or not, localT of the bracketing segment lies in [0, 1). */
  function SegmentT(ps: seq<ControlPoint>, t: real): (u: real)
    requires |ps| > 0
    ensures 0.0 <= u < 1.0
  {
    LocalT(Bracket(ps, t), t)
  }

  /** The ease curve u^2 (3 - 2u). */
  function Smoothstep(u: real): (e: real)
    ensures u == 0.0 ==> e == 0.0
    ensures u == 1.0 ==> e == 1.0
  {
    u * u * (3.0 - 2.0 * u)
  }

  /** Ease applies the ease curve; Constant freezes the segment at its start. */
  function Eased(u: real, interp: E.GradientInterpolation): (e: real)
    ensures interp == E.Constant ==> e == 0.0
    ensures interp != E.Ease && interp != E.Constant ==> e == u
    ensures interp == E.Ease ==> e == Smoothstep(u)
  {
    if interp == E.Ease then Smoothstep(u)
    else if interp == E.Constant then 0.0
    else u
  }

  /** Every easing maps [0, 1] into [0, 1]. */
  lemma EasedInUnit(u: real, interp: E.GradientInterpolation)
    requires InUnit(u)
    ensures InUnit(Eased(u, interp))
  {
    if interp == E.Ease {
      ProductInUnit(u, u);
      NonNegativeScale(u * u, 3.0 - 2.0 * u);
      assert 1.0 - u * u * (3.0 - 2.0 * u) == (1.0 - u) * (1.0 - u) * (1.0 + 2.0 * u);
      NonNegativeScale(1.0 - u, 1.0 - u);
      NonNegativeScale((1.0 - u) * (1.0 - u), 1.0 + 2.0 * u);
    }
  }

  /** Ease is monotone: a later sample is never eased to an earlier one. */
  lemma EaseMonotone(u1: real, u2: real)
    requires 0.0 <= u1 <= u2 <= 1.0
    ensures Eased(u1, E.Ease) <= Eased(u2, E.Ease)
  {
    var d := u2 - u1;
    var w := 3.0 * (u1 + u2) - 2.0 * (u1 * u1 + u1 * u2 + u2 * u2);
    assert Eased(u2, E.Ease) - Eased(u1, E.Ease) == d * w;
    EaseSlopeNonNegative(u1, u2);
    NonNegativeScale(d, w);
  }

  /** The factor 3(u1 + u2) - 2(u1^2 + u1 u2 + u2^2) of the ease difference is
      not negative: each product is below both of its factors. */
  lemma EaseSlopeNonNegative(u1: real, u2: real)
    requires 0.0 <= u1 <= 1.0 && 0.0 <= u2 <= 1.0
    ensures 0.0 <= 3.0 * (u1 + u2) - 2.0 * (u1 * u1 + u1 * u2 + u2 * u2)
  {
    var a, b, c := u1 * u1, u1 * u2, u2 * u2;
    ProductInUnit(u1, u1);
    ProductInUnit(u2, u2);
    ProductInUnit(u1, u2);
    assert a <= u1 && b <= u1 && b <= u2 && c <= u2;
    SlopeBound(u1, u2, a, b, c);
  }

  lemma SlopeBound(u1: real, u2: real, a: real, b: real, c: real)
    requires a <= u1 && b <= u1 && b <= u2 && c <= u2
    ensures 0.0 <= 3.0 * (u1 + u2) - 2.0 * (a + b + c)
  {
  }

  /** Cardinal (Catmull-Rom) basis over v0..v3 at u. */
  function Cardinal(v0: real, v1: real, v2: real, v3: real, u: real): (r: real)
    ensures u == 0.0 ==> r == v1
    ensures u == 1.0 ==> r == v2
    ensures v0 == v1 == v2 == v3 ==> r == v1
  {
    var u2 := u * u;
    var u3 := u2 * u;
    0.5 * ((2.0 * v1) + (-v0 + v2) * u + (2.0 * v0 - 5.0 * v1 + 4.0 * v2 - v3) * u2 + (-v0 + 3.0 * v1 - 3.0 * v2 + v3) * u3)
  }

  /** Uniform cubic B-spline basis over v0..v3 at u. It does not pass through v1:
      at u = 0 it gives (v0 + 4 v1 + v2) / 6. */
  function BSpline(v0: real, v1: real, v2: real, v3: real, u: real): (r: real)
    ensures u == 0.0 ==> r == (v0 + 4.0 * v1 + v2) / 6.0
    ensures u == 1.0 ==> r == (v1 + 4.0 * v2 + v3) / 6.0
    ensures v0 == v1 == v2 == v3 ==> r == v1
  {
    var u2 := u * u;
    var u3 := u2 * u;
    (1.0 / 6.0) * ((-u3 + 3.0 * u2 - 3.0 * u + 1.0) * v0 + (3.0 * u3 - 6.0 * u2 + 4.0) * v1
                   + (-3.0 * u3 + 3.0 * u2 + 3.0 * u + 1.0) * v2 + u3 * v3)
  }

  /** The four B-spline weights sum to 6 at every u, so the basis is an average. */
  lemma BSplineWeightsSumToSix(u: real)
    ensures var u2 := u * u; var u3 := u2 * u;
      (-u3 + 3.0 * u2 - 3.0 * u + 1.0) + (3.0 * u3 - 6.0 * u2 + 4.0) + (-3.0 * u3 + 3.0 * u2 + 3.0 * u + 1.0) + u3 == 6.0
  {
  }

  /** Cardinal for the Cardinal setting, BSpline otherwise. */
  function Basis(interp: E.GradientInterpolation, v0: real, v1: real, v2: real, v3: real, u: real): real
  {
    if interp == E.Cardinal then Cardinal(v0, v1, v2, v3, u) else BSpline(v0, v1, v2, v3, u)
  }

  /** The loop of GetSplineColor from index i0: the first i with t <= ps[i + 1],
      or the last index when there is none. */
  function SplineIndexFrom(ps: seq<ControlPoint>, t: real, i0: nat): (i: nat)
    requires i0 < |ps|
    ensures i0 <= i < |ps|
    ensures i < |ps| - 1 ==> t <= ps[i + 1].position
    ensures forall j :: i0 < j <= i ==> t > ps[j].position
    decreases |ps| - i0
  {
    if i0 == |ps| - 1 then i0
    else if t <= ps[i0 + 1].position then i0
    else SplineIndexFrom(ps, t, i0 + 1)
  }

  function SplineIndex(ps: seq<ControlPoint>, t: real): (i: nat)
    requires |ps| > 0
    ensures i < |ps|
  {
    SplineIndexFrom(ps, t, 0)
  }

  /** The neighbourhood p0, p1, p2, p3 of index i, clamped to the list ends. */
  datatype Neighbours = Neighbours(k0: nat, k1: nat, k2: nat, k3: nat)

  function NeighboursOf(n: nat, i: nat): (k: Neighbours)
    requires i < n
    ensures k.k0 < n && k.k1 < n && k.k2 < n && k.k3 < n
    ensures k.k0 <= k.k1 == i <= k.k2 <= k.k3
    ensures i + 2 < n ==> k.k0 + 3 == k.k3 || i == 0
  {
    Neighbours(if i - 1 > 0 then i - 1 else 0, i, if i + 1 < n - 1 then i + 1 else n - 1,
               if i + 2 < n - 1 then i + 2 else n - 1)
  }

  /** The spline colour from index i and local parameter u: each channel
      through the basis, then clamped to [0, 1]. */
  function SplineColorAt(ps: seq<ControlPoint>, i: nat, u: real, interp: E.GradientInterpolation): (c: Color)
    requires i < |ps|
    ensures IsUnitColor(c)
  {
    var k := NeighboursOf(|ps|, i);
    var c0, c1, c2, c3 := ps[k.k0].color, ps[k.k1].color, ps[k.k2].color, ps[k.k3].color;
    Color(Clamp(Basis(interp, c0.a, c1.a, c2.a, c3.a, u), 0.0, 1.0),
          Clamp(Basis(interp, c0.r, c1.r, c2.r, c3.r, u), 0.0, 1.0),
          Clamp(Basis(interp, c0.g, c1.g, c2.g, c3.g, u), 0.0, 1.0),
          Clamp(Basis(interp, c0.b, c1.b, c2.b, c3.b, u), 0.0, 1.0))
  }

  function SplineSegment(ps: seq<ControlPoint>, i: nat): Segment
    requires i < |ps|
  {
    Segment(ps[i], ps[NeighboursOf(|ps|, i).k2])
  }

  /** GetSplineColor as written: localT is taken unclamped, so it is negative
      for t before the first point and the basis extrapolates there. */
  function SplineColorAsWritten(ps: seq<ControlPoint>, t: real, interp: E.GradientInterpolation): (c: Color)
    requires |ps| > 0
    ensures IsUnitColor(c)
  {
    var i := SplineIndex(ps, t);
    SplineColorAt(ps, i, LocalT(SplineSegment(ps, i), t), interp)
  }

  /** The spline parameter with its lower end held at 0, as the other modes hold it. */
  function SplineT(ps: seq<ControlPoint>, t: real): (u: real)
    requires |ps| > 0
    ensures 0.0 <= u
    ensures SortedBy(ps, PositionOf) ==> u <= 1.0
  {
    var i := SplineIndex(ps, t);
    var s := SplineSegment(ps, i);
    SplineTBounds(ps, t);
    Max(LocalT(s, t), 0.0)
  }

  lemma SplineTBounds(ps: seq<ControlPoint>, t: real)
    requires |ps| > 0
    ensures var s := SplineSegment(ps, SplineIndex(ps, t));
      SortedBy(ps, PositionOf) ==> LocalT(s, t) <= 1.0
  {
    var i := SplineIndex(ps, t);
    var s := SplineSegment(ps, i);
    if i < |ps| - 1 && s.p2.position > s.p1.position {
      assert t <= s.p2.position;
      QuotientBounds01(t - s.p1.position, s.p2.position - s.p1.position);
    }
  }

  /** On a sorted list, from the first point on, the unclamped parameter
      already lies in [0, 1]: the correction changes nothing there. */
  lemma SplineTUnchangedFromFirstPoint(ps: seq<ControlPoint>, t: real)
    requires |ps| > 0 && SortedBy(ps, PositionOf) && ps[0].position <= t
    ensures var i := SplineIndex(ps, t);
      SplineT(ps, t) == LocalT(SplineSegment(ps, i), t)
  {
    var i := SplineIndex(ps, t);
    var s := SplineSegment(ps, i);
    assert s.p1.position <= t by {
      if i > 0 {
        assert t > ps[i].position;
      }
    }
    if s.p2.position > s.p1.position {
      QuotientBounds01(t - s.p1.position, s.p2.position - s.p1.position);
    }
  }

  /** GetSplineColor with its parameter held at 0 before the first point. */
  function SplineColor(ps: seq<ControlPoint>, t: real, interp: E.GradientInterpolation): (c: Color)
    requires |ps| > 0
    ensures IsUnitColor(c)
  {
    SplineColorAt(ps, SplineIndex(ps, t), SplineT(ps, t), interp)
  }

  /** Before the first point of a sorted list the Cardinal ramp holds the first
      colour, as the Linear, Ease and Constant ramps do. */
  lemma CardinalHoldsFirstColour(ps: seq<ControlPoint>, t: real)
    requires |ps| > 0 && SortedBy(ps, PositionOf) && t <= ps[0].position
    requires IsUnitColor(ps[0].color)
    ensures SplineColor(ps, t, E.Cardinal) == ps[0].color
  {
    var i := SplineIndex(ps, t);
    assert i == 0 by {
      if |ps| > 1 {
        assert ps[0].position <= ps[1].position;
      }
    }
    var s := SplineSegment(ps, 0);
    assert LocalT(s, t) <= 0.0;
    assert SplineT(ps, t) == 0.0;
  }

  /** The discrepancy: black at 0.5 and white at 1. At t = 0 the code as written
      extrapolates to localT = -1, the Cardinal basis overshoots to 2 in each
      colour channel, and the clamp turns the sample white instead of black. */
  lemma SplineBeforeFirstPoint()
    ensures var ps := [ControlPoint(0.5, Black), ControlPoint(1.0, White)];
      SplineColorAsWritten(ps, 0.0, E.Cardinal) == White
      && SplineColor(ps, 0.0, E.Cardinal) == Black
  {
    var ps := [ControlPoint(0.5, Black), ControlPoint(1.0, White)];
    ExampleSegment(ps);
    ExampleOvershoot();
    ExampleHeld();
    assert SplineColorAsWritten(ps, 0.0, E.Cardinal) == SplineColorAt(ps, 0, -1.0, E.Cardinal);
    assert SplineColor(ps, 0.0, E.Cardinal) == SplineColorAt(ps, 0, 0.0, E.Cardinal);
  }

  lemma ExampleSegment(ps: seq<ControlPoint>)
    requires ps == [ControlPoint(0.5, Black), ControlPoint(1.0, White)]
    ensures SplineIndex(ps, 0.0) == 0
    ensures LocalT(SplineSegment(ps, 0), 0.0) == -1.0
    ensures SplineT(ps, 0.0) == 0.0
  {
    assert SplineIndex(ps, 0.0) == 0;
    assert LocalT(SplineSegment(ps, 0), 0.0) == -1.0;
  }

  lemma ExampleOvershoot()
    ensures var ps := [ControlPoint(0.5, Black), ControlPoint(1.0, White)];
      SplineColorAt(ps, 0, -1.0, E.Cardinal) == White
  {
    CardinalOvershoot();
    assert Cardinal(1.0, 1.0, 1.0, 1.0, -1.0) == 1.0;
  }

  lemma ExampleHeld()
    ensures var ps := [ControlPoint(0.5, Black), ControlPoint(1.0, White)];
      SplineColorAt(ps, 0, 0.0, E.Cardinal) == Black
  {
  }

  lemma CardinalOvershoot()
    ensures Cardinal(0.0, 0.0, 1.0, 1.0, -1.0) == 2.0
  {
  }

  /** Every point colour can go through FromColor for the chosen colour model. */
  predicate AllConvertible(ps: seq<ControlPoint>, gradient: E.GradientType)
  {
    forall i :: 0 <= i < |ps| ==> Convertible(ps[i].color, ModeOf(gradient))
  }

  predicate AllUnit(ps: seq<ControlPoint>)
  {
    forall i :: 0 <= i < |ps| ==> IsUnitColor(ps[i].color)
  }

  lemma AllUnitConvertible(ps: seq<ControlPoint>, gradient: E.GradientType)
    requires AllUnit(ps)
    ensures AllConvertible(ps, gradient)
  {
    forall i | 0 <= i < |ps| ensures Convertible(ps[i].color, ModeOf(gradient)) {
      UnitColorHslDefined(ps[i].color);
    }
  }

  /** The colour the table holds at sample position t. */
  function RampColor(ps: seq<ControlPoint>, t: real, gradient: E.GradientType,
                     interp: E.GradientInterpolation, policy: E.GradientInterpolationHSLHSV): (c: Color)
    requires |ps| > 0 && AllConvertible(ps, gradient)
    ensures interp == E.Cardinal || interp == E.BSpline ==> IsUnitColor(c)
    ensures interp == E.Constant && gradient == E.RGB ==> c == Bracket(ps, t).p1.color
  {
    if interp == E.Cardinal || interp == E.BSpline then
      SplineColorAsWritten(ps, t, interp)
    else
      var s := Bracket(ps, t);
      InterpolateColor(s.p1.color, s.p2.color, Eased(LocalT(s, t), interp), gradient, policy)
  }

  /** Proof helper only: unfolds RampColor into its two shapes, the spline or
      the eased segment, so that callers need not unfold it themselves. */
  lemma RampColorCases(ps: seq<ControlPoint>, t: real, gradient: E.GradientType,
                       interp: E.GradientInterpolation, policy: E.GradientInterpolationHSLHSV)
    requires |ps| > 0 && AllConvertible(ps, gradient)
    ensures interp == E.Cardinal || interp == E.BSpline ==>
      RampColor(ps, t, gradient, interp, policy) == SplineColorAsWritten(ps, t, interp)
    ensures interp != E.Cardinal && interp != E.BSpline ==>
      var s := Bracket(ps, t);
      Convertible(s.p1.color, ModeOf(gradient)) && Convertible(s.p2.color, ModeOf(gradient))
      && RampColor(ps, t, gradient, interp, policy)
         == InterpolateColor(s.p1.color, s.p2.color, Eased(LocalT(s, t), interp), gradient, policy)
  {
  }

  /** The 256 colours of the ramp tables, at t = i / 255. */
  function RampTable(ps: seq<ControlPoint>, gradient: E.GradientType,
                     interp: E.GradientInterpolation, policy: E.GradientInterpolationHSLHSV): (table: seq<Color>)
    requires |ps| > 0 && AllConvertible(ps, gradient)
    ensures |table| == 256
    ensures forall i {:trigger RampColor(ps, SampleT(i), gradient, interp, policy)} :: 0 <= i < 256 ==> table[i] == RampColor(ps, SampleT(i), gradient, interp, policy)
  {
    seq(256, i requires 0 <= i < 256 => RampColor(ps, SampleT(i), gradient, interp, policy))
  }

  /** Colours in range give a ramp in range, in every mode. */
  lemma RampColorInUnit(ps: seq<ControlPoint>, t: real, gradient: E.GradientType,
                        interp: E.GradientInterpolation, policy: E.GradientInterpolationHSLHSV)
    requires |ps| > 0 && AllUnit(ps)
    ensures AllConvertible(ps, gradient)
    ensures IsUnitColor(RampColor(ps, t, gradient, interp, policy))
  {
    AllUnitConvertible(ps, gradient);
    if interp != E.Cardinal && interp != E.BSpline {
      var s := Bracket(ps, t);
      var u := SegmentT(ps, t);
      EasedInUnit(u, interp);
      InterpolateColorInUnit(s.p1.color, s.p2.color, Eased(u, interp), gradient, policy);
    }
  }

  predicate StrictlyIncreasing(ps: seq<ControlPoint>)
  {
    forall i, j :: 0 <= i < j < |ps| ==> ps[i].position < ps[j].position
  }

  /** A point of a list whose colours are all in range has a colour in range. */
  lemma MemberInUnit(ps: seq<ControlPoint>, p: ControlPoint)
    requires AllUnit(ps) && p in ps
    ensures IsUnitColor(p.color)
  {
    var i :| 0 <= i < |ps| && ps[i] == p;
  }

  /** Constant easing holds the colour of the last point at or below t (the
      first point before it), in every colour model and hue policy. */
  lemma RampConstantHolds(ps: seq<ControlPoint>, t: real, gradient: E.GradientType,
                          policy: E.GradientInterpolationHSLHSV)
    requires |ps| > 0 && AllUnit(ps)
    ensures AllConvertible(ps, gradient)
    ensures RampColor(ps, t, gradient, E.Constant, policy) == Bracket(ps, t).p1.color
  {
    AllUnitConvertible(ps, gradient);
    var s := Bracket(ps, t);
    MemberInUnit(ps, s.p1);
    MemberInUnit(ps, s.p2);
    InterpolateColorEnds(s.p1.color, s.p2.color, gradient, policy);
  }

  /** Linear, Ease and Constant pass through every point of a strictly
      increasing list: at a point's own position the table holds that point's
      colour. In RGB this holds for any colours, in HSV and HSL for colours in
      range. */
  lemma RampPassesThroughPoints(ps: seq<ControlPoint>, k: nat, gradient: E.GradientType,
                                interp: E.GradientInterpolation, policy: E.GradientInterpolationHSLHSV)
    requires k < |ps| && StrictlyIncreasing(ps)
    requires gradient == E.RGB || AllUnit(ps)
    requires interp != E.Cardinal && interp != E.BSpline
    ensures AllConvertible(ps, gradient)
    ensures RampColor(ps, ps[k].position, gradient, interp, policy) == ps[k].color
  {
    if gradient != E.RGB {
      AllUnitConvertible(ps, gradient);
    }
    var t := ps[k].position;
    var last := LastAtOrBelow(ps, t);
    assert last == Some(k);
    var s := Bracket(ps, t);
    assert s.p1 == ps[k];
    assert LocalT(s, t) == 0.0;
    assert Eased(LocalT(s, t), interp) == 0.0;
    if gradient != E.RGB {
      MemberInUnit(ps, s.p1);
      MemberInUnit(ps, s.p2);
      InterpolateColorEnds(s.p1.color, s.p2.color, gradient, policy);
    }
  }

  /** On a strictly increasing list, the spline search at a point's own
      position stops at that point when it is the first, and at the point
      before it otherwise. */
  lemma SplineIndexAtPoint(ps: seq<ControlPoint>, k: nat)
    requires k < |ps| && StrictlyIncreasing(ps)
    ensures SplineIndex(ps, ps[k].position) == if k == 0 then 0 else k - 1
  {
    var i := SplineIndex(ps, ps[k].position);
    if k != 0 {
      assert ps[i + 1].position >= ps[k].position;
    }
  }

  /** The Cardinal spline colour at u = 0 is the colour of point i and at u = 1
      that of its right neighbour, when those colours are in range. */
  lemma CardinalAtEnds(ps: seq<ControlPoint>, i: nat)
    requires i < |ps| && AllUnit(ps)
    ensures SplineColorAt(ps, i, 0.0, E.Cardinal) == ps[i].color
    ensures SplineColorAt(ps, i, 1.0, E.Cardinal) == ps[NeighboursOf(|ps|, i).k2].color
  {
    assert IsUnitColor(ps[i].color);
    assert IsUnitColor(ps[NeighboursOf(|ps|, i).k2].color);
  }

  /** The Cardinal ramp passes through every point of a strictly increasing
      list with colours in range: at the first point the segment starts there
      (u = 0), at any later point the segment before it ends there (u = 1). */
  lemma CardinalPassesThroughPoints(ps: seq<ControlPoint>, k: nat, gradient: E.GradientType,
                                    policy: E.GradientInterpolationHSLHSV)
    requires k < |ps| && StrictlyIncreasing(ps) && AllUnit(ps)
    ensures AllConvertible(ps, gradient)
    ensures RampColor(ps, ps[k].position, gradient, E.Cardinal, policy) == ps[k].color
  {
    AllUnitConvertible(ps, gradient);
    var t := ps[k].position;
    SplineIndexAtPoint(ps, k);
    if k == 0 {
      CardinalAtEnds(ps, 0);
    } else {
      var i := k - 1;
      assert NeighboursOf(|ps|, i).k2 == k;
      var d := ps[k].position - ps[i].position;
      WholeQuotient(d, d);
      assert LocalT(SplineSegment(ps, i), t) == 1.0;
      CardinalAtEnds(ps, i);
    }
  }

  /** The points ordered by position, followed by the fallback: fewer than two points
      are replaced by black at 0 and white at 1. */
  function EffectivePoints(sorted: seq<ControlPoint>): (ps: seq<ControlPoint>)
    ensures |ps| >= 2
    ensures |sorted| < 2 ==> ps == [ControlPoint(0.0, Black), ControlPoint(1.0, White)]
    ensures |sorted| >= 2 ==> ps == sorted
    ensures SortedBy(sorted, PositionOf) ==> SortedBy(ps, PositionOf)
    ensures AllUnit(sorted) ==> AllUnit(ps)
  {
    if |sorted| < 2 then [ControlPoint(0.0, Black), ControlPoint(1.0, White)] else sorted
  }

  /** The sample position of table index i. */
  function SampleT(i: nat): (t: real)
    ensures i <= 255 ==> InUnit(t)
  {
    i as real / 255.0
  }

  /** The default ramp, black at 0 and white at 1, is the grey ramp (1, t, t, t)
      with Linear easing in every colour model and hue policy. */
  lemma DefaultRampIsGreyRamp(t: real, gradient: E.GradientType, policy: E.GradientInterpolationHSLHSV)
    requires InUnit(t)
    ensures var ps := [ControlPoint(0.0, Black), ControlPoint(1.0, White)];
      AllConvertible(ps, gradient) && RampColor(ps, t, gradient, E.Linear, policy) == Color(1.0, t, t, t)
  {
    DefaultPairIsGrey([ControlPoint(0.0, Black), ControlPoint(1.0, White)], t, gradient, policy);
  }

  /** The default pair, named by a parameter so that its ramp is not unfolded on a literal. */
  lemma DefaultPairIsGrey(ps: seq<ControlPoint>, t: real, gradient: E.GradientType, policy: E.GradientInterpolationHSLHSV)
    requires ps == [ControlPoint(0.0, Black), ControlPoint(1.0, White)]
    requires InUnit(t)
    ensures AllConvertible(ps, gradient) && RampColor(ps, t, gradient, E.Linear, policy) == Color(1.0, t, t, t)
  {
    assert AllUnit(ps);
    AllUnitConvertible(ps, gradient);
    if t < 1.0 {
      DefaultRampBelowOne(ps, t, gradient, policy);
    } else {
      assert t == 1.0;
      DefaultRampAtOne(ps, gradient, policy);
    }
  }

  /** Below 1 the pair brackets t by its own two points, at local parameter t. */
  lemma DefaultRampBelowOne(ps: seq<ControlPoint>, t: real, gradient: E.GradientType, policy: E.GradientInterpolationHSLHSV)
    requires ps == [ControlPoint(0.0, Black), ControlPoint(1.0, White)]
    requires 0.0 <= t < 1.0 && AllConvertible(ps, gradient)
    ensures RampColor(ps, t, gradient, E.Linear, policy) == Color(1.0, t, t, t)
  {
    GreyPairBelowOne(ps, t, gradient, policy);
  }

  /** A pair of greys at 0 and 1 ramps linearly between them. */
  lemma GreyPairBelowOne(ps: seq<ControlPoint>, t: real, gradient: E.GradientType, policy: E.GradientInterpolationHSLHSV)
    requires |ps| == 2 && ps[0].position == 0.0 && ps[1].position == 1.0
    requires IsGrey(ps[0].color) && IsGrey(ps[1].color)
    requires 0.0 <= t < 1.0 && AllConvertible(ps, gradient)
    ensures RampColor(ps, t, gradient, E.Linear, policy) == LerpColor(ps[0].color, ps[1].color, t)
  {
    assert LastAtOrBelow(ps, t) == Some(0);
    assert FirstAbove(ps, t) == Some(0 + 1);
    var s := Bracket(ps, t);
    assert s == Segment(ps[0], ps[1]);
    assert LocalT(s, t) == (t - 0.0) / (1.0 - 0.0) == t;
    RampColorCases(ps, t, gradient, E.Linear, policy);
  }

  /** At 1 the last point is held: the segment is white to white. */
  lemma DefaultRampAtOne(ps: seq<ControlPoint>, gradient: E.GradientType, policy: E.GradientInterpolationHSLHSV)
    requires ps == [ControlPoint(0.0, Black), ControlPoint(1.0, White)]
    requires AllConvertible(ps, gradient)
    ensures RampColor(ps, 1.0, gradient, E.Linear, policy) == White
  {
    GreyPairAtOne(ps, gradient, policy);
  }

  /** A pair of greys at 0 and 1 holds the second grey at 1. */
  lemma GreyPairAtOne(ps: seq<ControlPoint>, gradient: E.GradientType, policy: E.GradientInterpolationHSLHSV)
    requires |ps| == 2 && ps[0].position == 0.0 && ps[1].position == 1.0
    requires IsGrey(ps[1].color) && AllConvertible(ps, gradient)
    ensures RampColor(ps, 1.0, gradient, E.Linear, policy) == ps[1].color
  {
    assert Bracket(ps, 1.0) == Segment(ps[1], ps[1]);
    RampColorCases(ps, 1.0, gradient, E.Linear, policy);
  }
}

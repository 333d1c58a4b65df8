/** The colour interpolation shared by the ramp builder and the editor preview:
    a channel-wise lerp in RGB, or a lerp of the HSV / HSL components along the
    chosen path around the hue circle. */
module Interp {
  import opened Numeric
  import opened Colors
  import opened HsvHsl
  import E = Effect

  /** Lerp(a, b, t) = a + (b - a) t. */
  function Lerp(a: real, b: real, t: real): (r: real)
    ensures t == 0.0 ==> r == a
    ensures t == 1.0 ==> r == b
    ensures a == b ==> r == a
  {
    a + (b - a) * t
  }

  /** For t in [0, 1] the lerp stays between its ends. */
  lemma LerpInRange(a: real, b: real, t: real)
    requires InUnit(t)
    ensures Min(a, b) <= Lerp(a, b, t) <= Max(a, b)
  {
    LerpWithin(a, b, t);
  }

  /** The RGB branch: every channel, alpha included, is lerped on its own. */
  function LerpColor(c1: Color, c2: Color, t: real): (c: Color)
    ensures t == 0.0 ==> c == c1
    ensures t == 1.0 ==> c == c2
  {
    Color(Lerp(c1.a, c2.a, t), Lerp(c1.r, c2.r, t), Lerp(c1.g, c2.g, t), Lerp(c1.b, c2.b, t))
  }

  /** Two colours in range give colours in range for t in [0, 1]. */
  lemma LerpColorInUnit(c1: Color, c2: Color, t: real)
    requires IsUnitColor(c1) && IsUnitColor(c2) && InUnit(t)
    ensures IsUnitColor(LerpColor(c1, c2, t))
  {
    LerpInRange(c1.a, c2.a, t);
    LerpInRange(c1.r, c2.r, t);
    LerpInRange(c1.g, c2.g, t);
    LerpInRange(c1.b, c2.b, t);
  }

  /** HSL for GradientType.HSL and HSV for anything else. */
  function ModeOf(gradient: E.GradientType): (m: ColorSpace)
    ensures m == HSL <==> gradient == E.HSL
  {
    if gradient == E.HSL then HSL else HSV
  }

  predicate InHue(h: real) { 0.0 <= h < 360.0 }

  /** Where the second hue is placed before lerping: h2 itself or h2 one turn
      away, chosen so that the sweep from h1 takes the requested direction. */
  function HueTarget(h1: real, h2: real, policy: E.GradientInterpolationHSLHSV): (target: real)
    ensures target == h2 || target == h2 - 360.0 || target == h2 + 360.0
    ensures InHue(h1) && InHue(h2) && policy == E.Near ==> Abs(target - h1) <= 180.0
    ensures InHue(h1) && InHue(h2) && policy == E.Far ==> Abs(target - h1) >= 180.0
    ensures InHue(h1) && InHue(h2) && policy == E.Clockwise ==> h1 <= target < h1 + 360.0
    ensures InHue(h1) && InHue(h2) && policy == E.CounterClockwise ==> h1 - 360.0 < target <= h1
  {
    var diff := h2 - h1;
    match policy
    case Near =>
      if diff > 180.0 then h2 - 360.0 else if diff < -180.0 then h2 + 360.0 else h2
    case Far =>
      if diff > 0.0 && diff <= 180.0 then h2 - 360.0
      else if diff <= 0.0 && diff > -180.0 then h2 + 360.0
      else h2
    case Clockwise =>
      if h2 < h1 then h2 + 360.0 else h2
    case CounterClockwise =>
      if h2 > h1 then h2 - 360.0 else h2
  }

  /** Two truncating remainders by 360 around an added 360: the angle x
      brought into [0, 360), unchanged when it is already there. */
  function WrapHue(x: real): (h: real)
    ensures InHue(h)
    ensures InHue(x) ==> h == x
  {
    Rem360(Rem360(x) + 360.0)
  }

  /** A hue one turn above or below an angle in [0, 360) wraps back onto it. */
  lemma WrapHueOneTurn(h: real)
    requires InHue(h)
    ensures WrapHue(h + 360.0) == h && WrapHue(h - 360.0) == h
  {
    assert Rem360(h + 360.0) == h by {
      assert Trunc((h + 360.0) / 360.0) == 1;
    }
    if h == 0.0 {
      assert Trunc(-360.0 / 360.0) == -1;
      assert Rem360(h - 360.0) == 0.0;
      assert Trunc(360.0 / 360.0) == 1;
    } else {
      assert Trunc((h - 360.0) / 360.0) == 0;
      assert Rem360(h - 360.0) == h - 360.0;
    }
  }

  /** The hue used at parameter t: the lerp from h1 towards the target,
      wrapped into [0, 360). It starts at h1 and ends at h2. */
  function InterpolatedHue(h1: real, h2: real, t: real, policy: E.GradientInterpolationHSLHSV): (h: real)
    ensures InHue(h)
    ensures InHue(h1) && t == 0.0 ==> h == h1
    ensures InHue(h2) && t == 1.0 ==> h == h2
  {
    var target := HueTarget(h1, h2, policy);
    if InHue(h2) then WrapHueOneTurn(h2); WrapHue(Lerp(h1, target, t)) else WrapHue(Lerp(h1, target, t))
  }

  /** With the clockwise policy the unwrapped hue never decreases as t grows,
      and with the counter-clockwise one it never increases. */
  lemma SweepDirection(h1: real, h2: real, t1: real, t2: real)
    requires InHue(h1) && InHue(h2) && t1 <= t2
    ensures var cw := HueTarget(h1, h2, E.Clockwise); Lerp(h1, cw, t1) <= Lerp(h1, cw, t2)
    ensures var ccw := HueTarget(h1, h2, E.CounterClockwise); Lerp(h1, ccw, t2) <= Lerp(h1, ccw, t1)
  {
    var cw := HueTarget(h1, h2, E.Clockwise);
    var ccw := HueTarget(h1, h2, E.CounterClockwise);
    NonNegativeScale(cw - h1, t2 - t1);
    assert (cw - h1) * t2 - (cw - h1) * t1 == (cw - h1) * (t2 - t1);
    NonNegativeScale(h1 - ccw, t2 - t1);
    assert (ccw - h1) * t1 - (ccw - h1) * t2 == (h1 - ccw) * (t2 - t1);
  }

  /** A colour r = g = b. */
  predicate IsGrey(c: Color) { c.r == c.g && c.g == c.b }

  /** The colour can go through FromColor in the given space. */
  predicate Convertible(c: Color, mode: ColorSpace) { mode == HSL ==> HslDefined(c) }

  /** The HSV / HSL branch: both colours to components, hue along the chosen
      path, saturation, value (or lightness) and alpha lerped, and back. */
  function HsxInterpolate(c1: Color, c2: Color, t: real, mode: ColorSpace, policy: E.GradientInterpolationHSLHSV): (c: Color)
    requires Convertible(c1, mode) && Convertible(c2, mode)
    ensures c.a == Lerp(c1.a, c2.a, t)
    ensures IsGrey(c1) && IsGrey(c2) ==>
      var g := Lerp(c1.r, c2.r, t); c == Color(Lerp(c1.a, c2.a, t), g, g, g)
  {
    var k1 := FromColor(c1, mode);
    var k2 := FromColor(c2, mode);
    var h := InterpolatedHue(k1.h, k2.h, t, policy);
    ToColor(h, Lerp(k1.s, k2.s, t), Lerp(k1.v, k2.v, t), Lerp(k1.a, k2.a, t), mode)
  }

  /** Colours in range give a colour in range for t in [0, 1]. */
  lemma HsxInterpolateInUnit(c1: Color, c2: Color, t: real, mode: ColorSpace, policy: E.GradientInterpolationHSLHSV)
    requires IsUnitColor(c1) && IsUnitColor(c2) && InUnit(t)
    ensures Convertible(c1, mode) && Convertible(c2, mode)
    ensures IsUnitColor(HsxInterpolate(c1, c2, t, mode, policy))
  {
    UnitColorHslDefined(c1);
    UnitColorHslDefined(c2);
    var k1 := FromColor(c1, mode);
    var k2 := FromColor(c2, mode);
    FromColorInUnit(c1, mode);
    FromColorInUnit(c2, mode);
    LerpInRange(k1.s, k2.s, t);
    LerpInRange(k1.v, k2.v, t);
    LerpInRange(k1.a, k2.a, t);
    var h := InterpolatedHue(k1.h, k2.h, t, policy);
    ToColorInUnit(h, Lerp(k1.s, k2.s, t), Lerp(k1.v, k2.v, t), Lerp(k1.a, k2.a, t), mode);
  }

  /** The processor's InterpolateColor: RGB lerp, or the HSV / HSL path. */
  function InterpolateColor(c1: Color, c2: Color, t: real, gradient: E.GradientType, policy: E.GradientInterpolationHSLHSV): (c: Color)
    requires Convertible(c1, ModeOf(gradient)) && Convertible(c2, ModeOf(gradient))
    ensures c.a == Lerp(c1.a, c2.a, t)
    ensures gradient == E.RGB && t == 0.0 ==> c == c1
    ensures gradient == E.RGB && t == 1.0 ==> c == c2
    ensures IsGrey(c1) && IsGrey(c2) ==> c == LerpColor(c1, c2, t)
  {
    if gradient == E.RGB then LerpColor(c1, c2, t)
    else HsxInterpolate(c1, c2, t, ModeOf(gradient), policy)
  }

  lemma InterpolateColorInUnit(c1: Color, c2: Color, t: real, gradient: E.GradientType, policy: E.GradientInterpolationHSLHSV)
    requires IsUnitColor(c1) && IsUnitColor(c2) && InUnit(t)
    ensures Convertible(c1, ModeOf(gradient)) && Convertible(c2, ModeOf(gradient))
    ensures IsUnitColor(InterpolateColor(c1, c2, t, gradient, policy))
  {
    if gradient == E.RGB {
      LerpColorInUnit(c1, c2, t);
    } else {
      HsxInterpolateInUnit(c1, c2, t, ModeOf(gradient), policy);
    }
  }

  /** At t = 0 the HSV / HSL path gives back the first colour and at t = 1 the
      second, for colours in range, whichever way round the hue circle it runs. */
  lemma HsxInterpolateEnds(c1: Color, c2: Color, mode: ColorSpace, policy: E.GradientInterpolationHSLHSV)
    requires IsUnitColor(c1) && IsUnitColor(c2)
    ensures Convertible(c1, mode) && Convertible(c2, mode)
    ensures HsxInterpolate(c1, c2, 0.0, mode, policy) == c1
    ensures HsxInterpolate(c1, c2, 1.0, mode, policy) == c2
  {
    RoundTrip(c1, mode);
    RoundTrip(c2, mode);
  }

  /** In every model and along every hue path, InterpolateColor starts at the
      first colour and ends at the second, for colours in range. */
  lemma InterpolateColorEnds(c1: Color, c2: Color, gradient: E.GradientType, policy: E.GradientInterpolationHSLHSV)
    requires IsUnitColor(c1) && IsUnitColor(c2)
    ensures Convertible(c1, ModeOf(gradient)) && Convertible(c2, ModeOf(gradient))
    ensures InterpolateColor(c1, c2, 0.0, gradient, policy) == c1
    ensures InterpolateColor(c1, c2, 1.0, gradient, policy) == c2
  {
    HsxInterpolateEnds(c1, c2, ModeOf(gradient), policy);
  }
}

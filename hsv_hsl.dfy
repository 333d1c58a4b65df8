/** HsvHslHelper: conversion between scRGB colours and HSV / HSL components,
    shared by the ramp builder and the editor preview. */
module HsvHsl {
  import opened Numeric
  import opened Colors

  datatype ColorSpace = HSV | HSL

  /** h in degrees; v holds V for HSV and L for HSL. */
  datatype ColorComponents = ColorComponents(h: real, s: real, v: real, a: real)

  function MaxOf(c: Color): real { Max(c.r, Max(c.g, c.b)) }

  function MinOf(c: Color): real { Min(c.r, Min(c.g, c.b)) }

  function Lightness(c: Color): real { (MaxOf(c) + MinOf(c)) / 2.0 }

  /** The HSL saturation divides by 1 - |2L - 1| whenever the colour is not
      grey; that divisor vanishes only for L = 0 or L = 1. */
  predicate HslDefined(c: Color)
  {
    MaxOf(c) - MinOf(c) == 0.0 || 1.0 - Abs(2.0 * Lightness(c) - 1.0) != 0.0
  }

  /** A colour with components in [0, 1] never reaches the vanishing divisor. */
  lemma UnitColorHslDefined(c: Color)
    requires IsUnitColor(c)
    ensures HslDefined(c)
  {
  }

  lemma QuotientBounds(x: real, d: real)
    requires 0.0 < d && -d <= x <= d
    ensures -1.0 <= x / d <= 1.0
    ensures x < 0.0 <==> x / d < 0.0
  {
  }

  /** The hue shared by HSV and HSL, in degrees: 0 for a grey, otherwise the
      sector of the largest channel plus the offset of the other two. */
  function Hue(c: Color): (h: real)
    ensures 0.0 <= h < 360.0
    ensures MaxOf(c) == MinOf(c) ==> h == 0.0
  {
    var max := MaxOf(c);
    var min := MinOf(c);
    var delta := max - min;
    if delta > 0.0 then
      QuotientBounds(c.g - c.b, delta);
      QuotientBounds(c.b - c.r, delta);
      QuotientBounds(c.r - c.g, delta);
      60.0 * (if max == c.r then (c.g - c.b) / delta + (if c.g < c.b then 6.0 else 0.0)
              else if max == c.g then (c.b - c.r) / delta + 2.0
              else (c.r - c.g) / delta + 4.0)
    else
      0.0
  }

  /** FromColor: HSV gives V = max and S = delta / max; HSL gives L = (max + min) / 2
      and S = delta / (1 - |2L - 1|); both give H = 0 and S = 0 for a grey. */
  function FromColor(c: Color, mode: ColorSpace): (k: ColorComponents)
    requires mode == HSL ==> HslDefined(c)
    ensures 0.0 <= k.h < 360.0
    ensures k.a == c.a
    ensures MaxOf(c) == MinOf(c) ==> k.h == 0.0 && k.s == 0.0
    ensures mode == HSV ==> k.v == MaxOf(c) && (MaxOf(c) == 0.0 ==> k.s == 0.0)
    ensures mode == HSL ==> k.v == Lightness(c)
  {
    var max := MaxOf(c);
    var min := MinOf(c);
    var delta := max - min;
    var h := Hue(c);
    if mode == HSV then
      ColorComponents(h, if max == 0.0 then 0.0 else delta / max, max, c.a)
    else
      var l := (max + min) / 2.0;
      ColorComponents(h, if delta == 0.0 then 0.0 else delta / (1.0 - Abs(2.0 * l - 1.0)), l, c.a)
  }

  /** For a colour in range, S and V (or L) lie in [0, 1]. */
  lemma FromColorInUnit(c: Color, mode: ColorSpace)
    requires IsUnitColor(c)
    ensures InUnit(FromColor(c, mode).s) && InUnit(FromColor(c, mode).v)
  {
    UnitColorHslDefined(c);
    var max, min := MaxOf(c), MinOf(c);
    var delta := max - min;
    if mode == HSV {
      if max != 0.0 {
        QuotientInUnit(delta, max);
      }
    } else if delta != 0.0 {
      QuotientInUnit(delta, 1.0 - Abs(2.0 * Lightness(c) - 1.0));
    }
  }

  /** The wrap of HueToRgb: one turn is added below 0 and removed above 1. */
  function WrapFraction(t: real): (u: real)
    ensures -1.0 <= t <= 2.0 ==> InUnit(u)
    ensures -1.0 <= t ==> 0.0 <= u
    ensures InUnit(t) ==> u == t
  {
    var t1 := if t < 0.0 then t + 1.0 else t;
    if t1 > 1.0 then t1 - 1.0 else t1
  }

  /** HueToRgb: piecewise-linear ramp between p and q over the wrapped hue fraction. */
  function HueToRgb(p: real, q: real, t: real): real
  {
    var u := WrapFraction(t);
    if u < 1.0 / 6.0 then p + (q - p) * 6.0 * u
    else if u < 1.0 / 2.0 then q
    else if u < 2.0 / 3.0 then p + (q - p) * (2.0 / 3.0 - u) * 6.0
    else p
  }

  /** Once t is at least -1 the wrapped fraction is in [0, 1] and the result lies between p and q. */
  lemma HueToRgbBetween(p: real, q: real, t: real)
    requires -1.0 <= t
    ensures Min(p, q) <= HueToRgb(p, q, t) <= Max(p, q)
  {
    var u := WrapFraction(t);
    if u < 1.0 / 6.0 {
      assert (q - p) * 6.0 * u == (q - p) * (6.0 * u);
      LerpWithin(p, q, 6.0 * u);
    } else if 1.0 / 2.0 <= u < 2.0 / 3.0 {
      assert (q - p) * (2.0 / 3.0 - u) * 6.0 == (q - p) * ((2.0 / 3.0 - u) * 6.0);
      LerpWithin(p, q, (2.0 / 3.0 - u) * 6.0);
    }
  }

  /** The HSV sector: the floor of h / 60 cast to int, taken modulo 6 with
      C#'s truncating remainder. */
  function HsvSector(h: real): (i: int)
    ensures -6 < i < 6
    ensures 0.0 <= h < 360.0 ==> 0 <= i <= 5
  {
    IntRem((h / 60.0).Floor, 6)
  }

  /** The sector switch of ToColor's HSV branch; alpha passes through. */
  function HsvPick(sector: int, a: real, v: real, p: real, q: real, t: real): (c: Color)
    ensures c.a == a
  {
    match sector
    case 0 => Color(a, v, t, p)
    case 1 => Color(a, q, v, p)
    case 2 => Color(a, p, v, t)
    case 3 => Color(a, p, q, v)
    case 4 => Color(a, t, p, v)
    case _ => Color(a, v, p, q)
  }

  /** Every channel of the sector switch takes one of v, p, q, t. */
  lemma HsvPickChannels(sector: int, a: real, v: real, p: real, q: real, t: real)
    ensures var c := HsvPick(sector, a, v, p, q, t);
      (c.r == v || c.r == p || c.r == q || c.r == t) &&
      (c.g == v || c.g == p || c.g == q || c.g == t) &&
      (c.b == v || c.b == p || c.b == q || c.b == t)
  {
  }

  /** The three helper levels of ToColor's HSV branch, for the fractional part f
      of h / 60: p = v(1 - s), q = v(1 - s f), t = v(1 - s(1 - f)). Each lies in
      [0, v] when s and v lie in [0, 1]. */
  function HsvLevelP(s: real, v: real): (p: real)
    ensures InUnit(s) && InUnit(v) ==> 0.0 <= p <= v
  {
    if InUnit(s) && InUnit(v) then ProductInUnit(v, 1.0 - s); v * (1.0 - s) else v * (1.0 - s)
  }

  function HsvLevelQ(s: real, v: real, f: real): (q: real)
    ensures InUnit(s) && InUnit(v) && InUnit(f) ==> 0.0 <= q <= v
  {
    if InUnit(s) && InUnit(v) && InUnit(f) then
      ProductInUnit(s, f);
      ProductInUnit(v, 1.0 - s * f);
      v * (1.0 - s * f)
    else v * (1.0 - s * f)
  }

  function HsvLevelT(s: real, v: real, f: real): (t: real)
    ensures InUnit(s) && InUnit(v) && InUnit(f) ==> 0.0 <= t <= v
  {
    HsvLevelQ(s, v, 1.0 - f)
  }

  /** The fractional part of h / 60 that HsvToRgb feeds to its levels. */
  function SectorFraction(h: real): real
  {
    h / 60.0 - (h / 60.0).Floor as real
  }

  /** The HSV branch of ToColor for s != 0. */
  function HsvToRgb(h: real, s: real, v: real, a: real): (c: Color)
    ensures c.a == a
  {
    var f := SectorFraction(h);
    HsvPick(HsvSector(h), a, v, HsvLevelP(s, v), HsvLevelQ(s, v, f), HsvLevelT(s, v, f))
  }

  /** With s and v in [0, 1], each HSV channel lies in [0, v]. */
  lemma HsvToRgbInRange(h: real, s: real, v: real, a: real)
    requires InUnit(s) && InUnit(v)
    ensures var c := HsvToRgb(h, s, v, a); 0.0 <= c.r <= v && 0.0 <= c.g <= v && 0.0 <= c.b <= v
  {
    var f := SectorFraction(h);
    assert InUnit(f);
    HsvPickChannels(HsvSector(h), a, v, HsvLevelP(s, v), HsvLevelQ(s, v, f), HsvLevelT(s, v, f));
  }

  /** The two helper levels of ToColor's HSL branch: q = l(1 + s) below l = 0.5,
      l + s - l s from there on, and p = 2l - q. Both lie in [0, 1] when s and l do. */
  function HslLevelQ(s: real, l: real): (q: real)
    ensures InUnit(s) && InUnit(l) ==> l <= q <= 1.0 && 0.0 <= 2.0 * l - q
  {
    if l < 0.5 then
      if InUnit(s) && InUnit(l) then HslLowerBounds(s, l); l * (1.0 + s) else l * (1.0 + s)
    else
      if InUnit(s) && InUnit(l) then HslUpperBounds(s, l); l + s - l * s else l + s - l * s
  }

  lemma HslLowerBounds(s: real, l: real)
    requires InUnit(s) && 0.0 <= l < 0.5
    ensures l <= l * (1.0 + s) <= 2.0 * l
  {
    ProductInUnit(l, s);
    assert l * (1.0 + s) == l + l * s;
  }

  lemma HslUpperBounds(s: real, l: real)
    requires InUnit(s) && 0.5 <= l <= 1.0
    ensures l <= l + s - l * s <= 1.0
  {
    ProductInUnit(l, s);
    ProductInUnit(1.0 - s, 1.0 - l);
    assert (1.0 - s) * (1.0 - l) == 1.0 - l - s + l * s;
  }

  /** The HSL branch of ToColor for s != 0. */
  function HslToRgb(h: real, s: real, l: real, a: real): (c: Color)
    ensures c.a == a
  {
    var q := HslLevelQ(s, l);
    var p := 2.0 * l - q;
    Color(a, HueToRgb(p, q, h / 360.0 + 1.0 / 3.0), HueToRgb(p, q, h / 360.0), HueToRgb(p, q, h / 360.0 - 1.0 / 3.0))
  }

  /** With h in [0, 360) and s, l in [0, 1], every HSL channel lies in [0, 1]. */
  lemma HslToRgbInRange(h: real, s: real, l: real, a: real)
    requires 0.0 <= h < 360.0 && InUnit(s) && InUnit(l)
    ensures var c := HslToRgb(h, s, l, a); InUnit(c.r) && InUnit(c.g) && InUnit(c.b)
  {
    var q := HslLevelQ(s, l);
    var p := 2.0 * l - q;
    HueToRgbBetween(p, q, h / 360.0 + 1.0 / 3.0);
    HueToRgbBetween(p, q, h / 360.0);
    HueToRgbBetween(p, q, h / 360.0 - 1.0 / 3.0);
  }

  /** ToColor: alpha passes through and s = 0 gives the grey (v, v, v). */
  function ToColor(h: real, s: real, v: real, a: real, mode: ColorSpace): (c: Color)
    ensures c.a == a
    ensures s == 0.0 ==> c == Color(a, v, v, v)
  {
    if s == 0.0 then Color(a, v, v, v)
    else if mode == HSV then HsvToRgb(h, s, v, a)
    else HslToRgb(h, s, v, a)
  }

  /** Components in range convert back to a colour in range. */
  lemma ToColorInUnit(h: real, s: real, v: real, a: real, mode: ColorSpace)
    requires 0.0 <= h < 360.0 && InUnit(s) && InUnit(v) && InUnit(a)
    ensures IsUnitColor(ToColor(h, s, v, a, mode))
  {
    if s != 0.0 {
      if mode == HSV {
        HsvToRgbInRange(h, s, v, a);
      } else {
        HslToRgbInRange(h, s, v, a);
      }
    }
  }

  /** A grey (r = g = b) survives FromColor followed by ToColor exactly, in both spaces. */
  lemma GreyRoundTrip(c: Color, mode: ColorSpace)
    requires c.r == c.g == c.b
    ensures var k := FromColor(c, mode); ToColor(k.h, k.s, k.v, k.a, mode) == c
  {
  }

  /** A quotient of two positive numbers is positive. */
  lemma PositiveQuotient(x: real, d: real)
    requires 0.0 < x && 0.0 < d
    ensures 0.0 < x / d
  {
    assert (x / d) * d == x;
  }

  /** With V = max and S = (max - min) / max, the HSV levels are p = min,
      q = max - (max - min) f and t = min + (max - min) f. */
  lemma HsvLevelsOfColor(max: real, min: real, f: real)
    requires min < max && 0.0 < max
    ensures HsvLevelP((max - min) / max, max) == min
    ensures HsvLevelQ((max - min) / max, max, f) == max - (max - min) * f
    ensures HsvLevelT((max - min) / max, max, f) == min + (max - min) * f
  {
    var s := (max - min) / max;
    assert max * s == max - min;
    assert max * (1.0 - s) == max - max * s;
    assert max * (1.0 - s * f) == max - (max * s) * f;
    assert max * (1.0 - s * (1.0 - f)) == max - (max * s) * (1.0 - f);
  }

  /** ToColor with s != 0 in HSV is the sector switch over the three levels. */
  lemma HsvToColorUnfold(h: real, s: real, v: real, a: real)
    requires s != 0.0
    ensures var f := SectorFraction(h);
      ToColor(h, s, v, a, HSV) == HsvPick(HsvSector(h), a, v, HsvLevelP(s, v), HsvLevelQ(s, v, f), HsvLevelT(s, v, f))
  {
  }

  /** Converting back HSV components with V = max and S = (max - min) / max:
      the sector switch over p = min, q = max - delta f and t = min + delta f. */
  lemma HsvToRgbOfLevels(h: real, max: real, min: real, a: real)
    requires 0.0 <= min < max
    ensures ToColor(h, (max - min) / max, max, a, HSV)
        == HsvPick(HsvSector(h), a, max, min, max - (max - min) * SectorFraction(h), min + (max - min) * SectorFraction(h))
  {
    PositiveQuotient(max - min, max);
    HsvToColorUnfold(h, (max - min) / max, max, a);
    HsvLevelsOfColor(max, min, SectorFraction(h));
  }

  /** h / 60 in [k, k + 1) for a sector k: HsvSector gives k and the fraction is h / 60 - k. */
  lemma SectorOf(h: real, k: int)
    requires 0 <= k <= 5 && k as real <= h / 60.0 < k as real + 1.0
    ensures HsvSector(h) == k && SectorFraction(h) == h / 60.0 - k as real
  {
  }

  /** The HSV components of a colour that is not grey, as FromColor computes them. */
  lemma FromColorHsv(c: Color)
    requires IsUnitColor(c) && MaxOf(c) != MinOf(c)
    ensures 0.0 <= MinOf(c) < MaxOf(c)
    ensures FromColor(c, HSV) == ColorComponents(Hue(c), (MaxOf(c) - MinOf(c)) / MaxOf(c), MaxOf(c), c.a)
  {
  }

  /** A hue of 60 (x / d + k + m) with x + d m in [0, d) lies in sector k, and d
      times its fraction within the sector is x + d m. */
  lemma SectorScaled(h: real, d: real, x: real, m: real, k: int)
    requires 0.0 < d && 0 <= k <= 5 && h == 60.0 * (x / d + k as real + m)
    requires 0.0 <= x + d * m < d
    ensures HsvSector(h) == k && d * SectorFraction(h) == x + d * m
  {
    var q := (x + d * m) / d;
    QuotientBounds01(x + d * m, d);
    assert q * d == x + d * m;
    assert (x / d) * d == x;
    assert (x / d + m) * d == x + d * m;
    assert q == x / d + m;
    SectorOf(h, k);
  }

  /** Converting back the HSV components of a colour that is not grey: the
      sector switch over min, max and the scaled fraction. */
  lemma HsvBackAsPick(c: Color)
    requires 0.0 <= MinOf(c) < MaxOf(c)
    ensures ToColor(Hue(c), (MaxOf(c) - MinOf(c)) / MaxOf(c), MaxOf(c), c.a, HSV)
        == HsvPick(HsvSector(Hue(c)), c.a, MaxOf(c), MinOf(c),
                   MaxOf(c) - (MaxOf(c) - MinOf(c)) * SectorFraction(Hue(c)),
                   MinOf(c) + (MaxOf(c) - MinOf(c)) * SectorFraction(Hue(c)))
  {
    HsvToRgbOfLevels(Hue(c), MaxOf(c), MinOf(c), c.a);
  }

  /** Converting back a colour where red is largest and green below blue: sector 5. */
  lemma HsvBackSector5(c: Color)
    requires 0.0 <= MinOf(c) < MaxOf(c) && MaxOf(c) == c.r && c.g < c.b
    ensures ToColor(Hue(c), (MaxOf(c) - MinOf(c)) / MaxOf(c), MaxOf(c), c.a, HSV) == c
  {
    HsvBackAsPick(c);
    SectorScaled(Hue(c), MaxOf(c) - MinOf(c), c.g - c.b, 1.0, 5);
  }

  /** Converting back a colour where red is largest and green from blue up to below red: sector 0. */
  lemma HsvBackSector0(c: Color)
    requires 0.0 <= MinOf(c) < MaxOf(c) && MaxOf(c) == c.r && c.b <= c.g < c.r
    ensures ToColor(Hue(c), (MaxOf(c) - MinOf(c)) / MaxOf(c), MaxOf(c), c.a, HSV) == c
  {
    HsvBackAsPick(c);
    SectorScaled(Hue(c), MaxOf(c) - MinOf(c), c.g - c.b, 0.0, 0);
  }

  /** Converting back a colour where red and green are both largest: the start of sector 1. */
  lemma HsvBackRedGreen(c: Color)
    requires 0.0 <= MinOf(c) < MaxOf(c) && MaxOf(c) == c.r && c.g == c.r
    ensures ToColor(Hue(c), (MaxOf(c) - MinOf(c)) / MaxOf(c), MaxOf(c), c.a, HSV) == c
  {
    HsvBackAsPick(c);
    SectorScaled(Hue(c), MaxOf(c) - MinOf(c), c.g - c.b, -1.0, 1);
  }

  /** Converting back a colour where green alone is largest and blue below red: sector 1. */
  lemma HsvBackSector1(c: Color)
    requires 0.0 <= MinOf(c) < MaxOf(c) && MaxOf(c) != c.r && MaxOf(c) == c.g && c.b < c.r
    ensures ToColor(Hue(c), (MaxOf(c) - MinOf(c)) / MaxOf(c), MaxOf(c), c.a, HSV) == c
  {
    HsvBackAsPick(c);
    SectorScaled(Hue(c), MaxOf(c) - MinOf(c), c.b - c.r, 1.0, 1);
  }

  /** Converting back a colour where green alone is largest and blue from red up to below green: sector 2. */
  lemma HsvBackSector2(c: Color)
    requires 0.0 <= MinOf(c) < MaxOf(c) && MaxOf(c) != c.r && MaxOf(c) == c.g && c.r <= c.b < c.g
    ensures ToColor(Hue(c), (MaxOf(c) - MinOf(c)) / MaxOf(c), MaxOf(c), c.a, HSV) == c
  {
    HsvBackAsPick(c);
    SectorScaled(Hue(c), MaxOf(c) - MinOf(c), c.b - c.r, 0.0, 2);
  }

  /** Converting back a colour where green and blue are both largest: the start of sector 3. */
  lemma HsvBackGreenBlue(c: Color)
    requires 0.0 <= MinOf(c) < MaxOf(c) && MaxOf(c) != c.r && MaxOf(c) == c.g && c.b == c.g
    ensures ToColor(Hue(c), (MaxOf(c) - MinOf(c)) / MaxOf(c), MaxOf(c), c.a, HSV) == c
  {
    HsvBackAsPick(c);
    SectorScaled(Hue(c), MaxOf(c) - MinOf(c), c.b - c.r, -1.0, 3);
  }

  /** Converting back a colour where blue alone is largest and red below green: sector 3. */
  lemma HsvBackSector3(c: Color)
    requires 0.0 <= MinOf(c) < MaxOf(c) && MaxOf(c) != c.r && MaxOf(c) != c.g && c.r < c.g
    ensures ToColor(Hue(c), (MaxOf(c) - MinOf(c)) / MaxOf(c), MaxOf(c), c.a, HSV) == c
  {
    HsvBackAsPick(c);
    SectorScaled(Hue(c), MaxOf(c) - MinOf(c), c.r - c.g, 1.0, 3);
  }

  /** Converting back a colour where blue alone is largest and red from green up: sector 4. */
  lemma HsvBackSector4(c: Color)
    requires 0.0 <= MinOf(c) < MaxOf(c) && MaxOf(c) != c.r && MaxOf(c) != c.g && c.g <= c.r
    ensures ToColor(Hue(c), (MaxOf(c) - MinOf(c)) / MaxOf(c), MaxOf(c), c.a, HSV) == c
  {
    HsvBackAsPick(c);
    SectorScaled(Hue(c), MaxOf(c) - MinOf(c), c.r - c.g, 0.0, 4);
  }

  /** Every colour in range survives FromColor followed by ToColor in HSV. */
  lemma HsvRoundTrip(c: Color)
    requires IsUnitColor(c)
    ensures var k := FromColor(c, HSV); ToColor(k.h, k.s, k.v, k.a, HSV) == c
  {
    if MaxOf(c) != MinOf(c) {
      FromColorHsv(c);
      if MaxOf(c) == c.r {
        if c.g < c.b {
          HsvBackSector5(c);
        } else if c.g < c.r {
          HsvBackSector0(c);
        } else {
          HsvBackRedGreen(c);
        }
      } else if MaxOf(c) == c.g {
        if c.b < c.r {
          HsvBackSector1(c);
        } else if c.b < c.g {
          HsvBackSector2(c);
        } else {
          HsvBackGreenBlue(c);
        }
      } else if c.r < c.g {
        HsvBackSector3(c);
      } else {
        HsvBackSector4(c);
      }
    }
  }

  /** With L = (max + min) / 2 and S = (max - min) / (1 - |2L - 1|), the HSL
      levels are q = max and p = 2L - q = min. */
  lemma HslLevelsOfColor(max: real, min: real)
    requires 0.0 <= min < max <= 1.0
    ensures var s := (max - min) / (1.0 - Abs(2.0 * ((max + min) / 2.0) - 1.0));
      s != 0.0 && HslLevelQ(s, (max + min) / 2.0) == max
  {
    var l := (max + min) / 2.0;
    var e := 1.0 - Abs(2.0 * l - 1.0);
    var s := (max - min) / e;
    if l < 0.5 {
      assert e == max + min;
    } else {
      assert e == 2.0 - max - min;
    }
    PositiveQuotient(max - min, e);
    assert s * e == max - min;
    if l < 0.5 {
      assert l * (1.0 + s) == l + s * e / 2.0;
    } else {
      assert l + s - l * s == l + s * e / 2.0;
    }
  }

  /** The HSL branch of ToColor for the lightness and saturation of a colour
      that is not grey: the three hue ramps between min and max. */
  lemma HslToRgbOfLevels(h: real, max: real, min: real, a: real)
    requires 0.0 <= min < max <= 1.0
    ensures ToColor(h, (max - min) / (1.0 - Abs(2.0 * ((max + min) / 2.0) - 1.0)), (max + min) / 2.0, a, HSL)
        == Color(a, HueToRgb(min, max, h / 360.0 + 1.0 / 3.0), HueToRgb(min, max, h / 360.0),
                 HueToRgb(min, max, h / 360.0 - 1.0 / 3.0))
  {
    HslLevelsOfColor(max, min);
  }

  /** The HSL components of a colour that is not grey, as FromColor computes them. */
  lemma FromColorHsl(c: Color)
    requires IsUnitColor(c) && MaxOf(c) != MinOf(c)
    ensures 0.0 <= MinOf(c) < MaxOf(c) <= 1.0
    ensures FromColor(c, HSL) == ColorComponents(Hue(c),
      (MaxOf(c) - MinOf(c)) / (1.0 - Abs(2.0 * ((MaxOf(c) + MinOf(c)) / 2.0) - 1.0)),
      (MaxOf(c) + MinOf(c)) / 2.0, c.a)
  {
    UnitColorHslDefined(c);
  }

  /** Converting back the HSL components of a colour that is not grey. */
  lemma HslBackAsRamps(c: Color)
    requires 0.0 <= MinOf(c) < MaxOf(c) <= 1.0
    ensures ToColor(Hue(c), (MaxOf(c) - MinOf(c)) / (1.0 - Abs(2.0 * ((MaxOf(c) + MinOf(c)) / 2.0) - 1.0)),
                    (MaxOf(c) + MinOf(c)) / 2.0, c.a, HSL)
        == Color(c.a, HueToRgb(MinOf(c), MaxOf(c), Hue(c) / 360.0 + 1.0 / 3.0),
                 HueToRgb(MinOf(c), MaxOf(c), Hue(c) / 360.0),
                 HueToRgb(MinOf(c), MaxOf(c), Hue(c) / 360.0 - 1.0 / 3.0))
  {
    HslToRgbOfLevels(Hue(c), MaxOf(c), MinOf(c), c.a);
  }

  /** A quotient of a positive number by itself is 1. */
  lemma WholeQuotient(x: real, d: real)
    requires 0.0 < d && x == d
    ensures x / d == 1.0
  {
  }

  /** Halfway along the wrapped position the ramp stands at its top level q. */
  lemma HalfRamp(p: real, q: real, t: real)
    requires WrapFraction(t) == 0.5
    ensures HueToRgb(p, q, t) == q
  {
  }

  /** On the rising ramp, a wrapped position of x / (6 (q - p)) gives p + x. */
  lemma RisingRamp(p: real, q: real, t: real, x: real)
    requires p < q && 0.0 <= x < q - p && WrapFraction(t) == x / (q - p) / 6.0
    ensures HueToRgb(p, q, t) == p + x
  {
    QuotientBounds01(x, q - p);
    assert (x / (q - p)) * (q - p) == x;
  }

  /** On the falling ramp, a wrapped position of 2/3 + x / (6 (q - p)) gives p - x. */
  lemma FallingRamp(p: real, q: real, t: real, x: real)
    requires p < q && -(q - p) <= x < 0.0 && WrapFraction(t) == 2.0 / 3.0 + x / (q - p) / 6.0
    ensures HueToRgb(p, q, t) == p - x
  {
    QuotientBounds(x, q - p);
    assert (x / (q - p)) * (q - p) == x;
  }

  /** Converting back a colour where red is largest and green below blue. */
  lemma HslBackSector5(c: Color)
    requires 0.0 <= MinOf(c) < MaxOf(c) <= 1.0 && MaxOf(c) == c.r && c.g < c.b
    ensures ToColor(Hue(c), (MaxOf(c) - MinOf(c)) / (1.0 - Abs(2.0 * ((MaxOf(c) + MinOf(c)) / 2.0) - 1.0)),
                    (MaxOf(c) + MinOf(c)) / 2.0, c.a, HSL) == c
  {
    HslBackAsRamps(c);
    QuotientBounds(c.g - c.b, MaxOf(c) - MinOf(c));
    assert Hue(c) == 60.0 * ((c.g - c.b) / (MaxOf(c) - MinOf(c)) + 6.0);
    FallingRamp(MinOf(c), MaxOf(c), Hue(c) / 360.0 - 1.0 / 3.0, c.g - c.b);
  }

  /** Converting back a colour where red is largest and green from blue up to below red. */
  lemma HslBackSector0(c: Color)
    requires 0.0 <= MinOf(c) < MaxOf(c) <= 1.0 && MaxOf(c) == c.r && c.b <= c.g < c.r
    ensures ToColor(Hue(c), (MaxOf(c) - MinOf(c)) / (1.0 - Abs(2.0 * ((MaxOf(c) + MinOf(c)) / 2.0) - 1.0)),
                    (MaxOf(c) + MinOf(c)) / 2.0, c.a, HSL) == c
  {
    HslBackAsRamps(c);
    QuotientBounds(c.g - c.b, MaxOf(c) - MinOf(c));
    assert Hue(c) == 60.0 * ((c.g - c.b) / (MaxOf(c) - MinOf(c)));
    RisingRamp(MinOf(c), MaxOf(c), Hue(c) / 360.0, c.g - c.b);
  }

  /** Converting back a colour where red and green are equal and largest. */
  lemma HslBackRedGreen(c: Color)
    requires 0.0 <= MinOf(c) < MaxOf(c) <= 1.0 && MaxOf(c) == c.r && c.g == c.r
    ensures ToColor(Hue(c), (MaxOf(c) - MinOf(c)) / (1.0 - Abs(2.0 * ((MaxOf(c) + MinOf(c)) / 2.0) - 1.0)),
                    (MaxOf(c) + MinOf(c)) / 2.0, c.a, HSL) == c
  {
    HslBackAsRamps(c);
    WholeQuotient(c.g - c.b, MaxOf(c) - MinOf(c));
    assert Hue(c) == 60.0 * ((c.g - c.b) / (MaxOf(c) - MinOf(c)));
    HalfRamp(MinOf(c), MaxOf(c), Hue(c) / 360.0 + 1.0 / 3.0);
  }

  /** Converting back a colour where green alone is largest and blue below red. */
  lemma HslBackSector1(c: Color)
    requires 0.0 <= MinOf(c) < MaxOf(c) <= 1.0 && MaxOf(c) != c.r && MaxOf(c) == c.g && c.b < c.r
    ensures ToColor(Hue(c), (MaxOf(c) - MinOf(c)) / (1.0 - Abs(2.0 * ((MaxOf(c) + MinOf(c)) / 2.0) - 1.0)),
                    (MaxOf(c) + MinOf(c)) / 2.0, c.a, HSL) == c
  {
    HslBackAsRamps(c);
    QuotientBounds(c.b - c.r, MaxOf(c) - MinOf(c));
    assert Hue(c) == 60.0 * ((c.b - c.r) / (MaxOf(c) - MinOf(c)) + 2.0);
    FallingRamp(MinOf(c), MaxOf(c), Hue(c) / 360.0 + 1.0 / 3.0, c.b - c.r);
  }

  /** Converting back a colour where green alone is largest and blue from red up to below green. */
  lemma HslBackSector2(c: Color)
    requires 0.0 <= MinOf(c) < MaxOf(c) <= 1.0 && MaxOf(c) != c.r && MaxOf(c) == c.g && c.r <= c.b < c.g
    ensures ToColor(Hue(c), (MaxOf(c) - MinOf(c)) / (1.0 - Abs(2.0 * ((MaxOf(c) + MinOf(c)) / 2.0) - 1.0)),
                    (MaxOf(c) + MinOf(c)) / 2.0, c.a, HSL) == c
  {
    HslBackAsRamps(c);
    QuotientBounds(c.b - c.r, MaxOf(c) - MinOf(c));
    assert Hue(c) == 60.0 * ((c.b - c.r) / (MaxOf(c) - MinOf(c)) + 2.0);
    RisingRamp(MinOf(c), MaxOf(c), Hue(c) / 360.0 - 1.0 / 3.0, c.b - c.r);
  }

  /** Converting back a colour where green and blue are equal and largest. */
  lemma HslBackGreenBlue(c: Color)
    requires 0.0 <= MinOf(c) < MaxOf(c) <= 1.0 && MaxOf(c) != c.r && MaxOf(c) == c.g && c.b == c.g
    ensures ToColor(Hue(c), (MaxOf(c) - MinOf(c)) / (1.0 - Abs(2.0 * ((MaxOf(c) + MinOf(c)) / 2.0) - 1.0)),
                    (MaxOf(c) + MinOf(c)) / 2.0, c.a, HSL) == c
  {
    HslBackAsRamps(c);
    WholeQuotient(c.b - c.r, MaxOf(c) - MinOf(c));
    assert Hue(c) == 60.0 * ((c.b - c.r) / (MaxOf(c) - MinOf(c)) + 2.0);
    HalfRamp(MinOf(c), MaxOf(c), Hue(c) / 360.0);
  }

  /** Converting back a colour where blue alone is largest and red below green. */
  lemma HslBackSector3(c: Color)
    requires 0.0 <= MinOf(c) < MaxOf(c) <= 1.0 && MaxOf(c) != c.r && MaxOf(c) != c.g && c.r < c.g
    ensures ToColor(Hue(c), (MaxOf(c) - MinOf(c)) / (1.0 - Abs(2.0 * ((MaxOf(c) + MinOf(c)) / 2.0) - 1.0)),
                    (MaxOf(c) + MinOf(c)) / 2.0, c.a, HSL) == c
  {
    HslBackAsRamps(c);
    QuotientBounds(c.r - c.g, MaxOf(c) - MinOf(c));
    assert Hue(c) == 60.0 * ((c.r - c.g) / (MaxOf(c) - MinOf(c)) + 4.0);
    FallingRamp(MinOf(c), MaxOf(c), Hue(c) / 360.0, c.r - c.g);
  }

  /** Converting back a colour where blue alone is largest and green not above red. */
  lemma HslBackSector4(c: Color)
    requires 0.0 <= MinOf(c) < MaxOf(c) <= 1.0 && MaxOf(c) != c.r && MaxOf(c) != c.g && c.g <= c.r
    ensures ToColor(Hue(c), (MaxOf(c) - MinOf(c)) / (1.0 - Abs(2.0 * ((MaxOf(c) + MinOf(c)) / 2.0) - 1.0)),
                    (MaxOf(c) + MinOf(c)) / 2.0, c.a, HSL) == c
  {
    HslBackAsRamps(c);
    QuotientBounds(c.r - c.g, MaxOf(c) - MinOf(c));
    assert Hue(c) == 60.0 * ((c.r - c.g) / (MaxOf(c) - MinOf(c)) + 4.0);
    if c.g < c.r {
      RisingRamp(MinOf(c), MaxOf(c), Hue(c) / 360.0 + 1.0 / 3.0, c.r - c.g);
    }
  }

  /** Every colour in range survives FromColor followed by ToColor in HSL. */
  lemma HslRoundTrip(c: Color)
    requires IsUnitColor(c)
    ensures HslDefined(c)
    ensures var k := FromColor(c, HSL); ToColor(k.h, k.s, k.v, k.a, HSL) == c
  {
    UnitColorHslDefined(c);
    if MaxOf(c) != MinOf(c) {
      FromColorHsl(c);
      if MaxOf(c) == c.r {
        if c.g < c.b { HslBackSector5(c); } else if c.g < c.r { HslBackSector0(c); } else { HslBackRedGreen(c); }
      } else if MaxOf(c) == c.g {
        if c.b < c.r { HslBackSector1(c); } else if c.b < c.g { HslBackSector2(c); } else { HslBackGreenBlue(c); }
      } else if c.r < c.g {
        HslBackSector3(c);
      } else {
        HslBackSector4(c);
      }
    }
  }

  /** FromColor and ToColor are inverse on colours in range, in both spaces. */
  lemma RoundTrip(c: Color, mode: ColorSpace)
    requires IsUnitColor(c)
    ensures HslDefined(c)
    ensures var k := FromColor(c, mode); ToColor(k.h, k.s, k.v, k.a, mode) == c
  {
    UnitColorHslDefined(c);
    if mode == HSV {
      HsvRoundTrip(c);
    } else {
      HslRoundTrip(c);
    }
  }
}

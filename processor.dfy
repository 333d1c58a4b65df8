/** ColorRampEffectProcessor: the per-frame Update with its change detection,
    the rebuild of the four 256-entry ramp tables, and the channel matrix. The
    Direct2D effects themselves are represented by the data handed to them. */
module Processor {
  import opened Numeric
  import opened Colors
  import opened Wrappers
  import opened Sorting
  import opened Points
  import opened Interp
  import opened Ramp
  import opened Channel
  import E = Effect
  import Mix

  const TableSize: nat := 256

  class ColorRampEffectProcessor {
    const item: E.ColorRampEffect
    const mixEffect: Mix.EffectImpl
    const tableR: array<real>
    const tableG: array<real>
    const tableB: array<real>
    const tableA: array<real>

    // The change-detection caches, null until the first Update.
    var lastEffectiveInputChannel: Option<E.GradientInputChannel>
    var lastPoints: E.PointList?
    var lastCalcType: Option<E.GradientType>
    var lastInterpType: Option<E.GradientInterpolation>
    var lastHueInterp: Option<E.GradientInterpolationHSLHSV>

    /** The matrix last handed to the ColorMatrix effect, if any. */
    var matrix: Option<seq<seq<real>>>
    /** Whether the ColorMatrix effect reads the RgbToHue output rather than the raw input. */
    var formatterReadsHue: bool
    /** The weight last handed to the CrossFade effect, if any. */
    var crossFadeWeight: Option<real>
    /** The point values the tables were last built from. */
    ghost var builtFrom: seq<ControlPoint>

    /** The tables as built: entry i holds the ramp colour at i / 255. */
    predicate TablesHold(ps: seq<ControlPoint>, gradient: E.GradientType,
                         interp: E.GradientInterpolation, policy: E.GradientInterpolationHSLHSV)
      reads tableR, tableG, tableB, tableA
      requires |ps| > 0 && AllConvertible(ps, gradient)
      requires tableR.Length == TableSize && tableG.Length == TableSize
      requires tableB.Length == TableSize && tableA.Length == TableSize
    {
      TablesEqual(RampTable(ps, gradient, interp, policy))
    }

    /** Entry i of the four tables holds the four channels of table[i]. */
    predicate TablesEqual(table: seq<Color>)
      reads tableR, tableG, tableB, tableA
      requires |table| == TableSize
      requires tableR.Length == TableSize && tableG.Length == TableSize
      requires tableB.Length == TableSize && tableA.Length == TableSize
    {
      forall i {:trigger table[i]} :: 0 <= i < TableSize ==>
        tableR[i] == table[i].r && tableG[i] == table[i].g && tableB[i] == table[i].b && tableA[i] == table[i].a
    }

    /** Four distinct tables of 256 entries; once a gradient was cached, the
        tables hold the ramp of the cached settings. */
    ghost predicate Valid()
      reads this`lastPoints, this`lastCalcType, this`lastInterpType, this`lastHueInterp, this`builtFrom
      reads tableR, tableG, tableB, tableA
    {
      tableR.Length == TableSize && tableG.Length == TableSize
      && tableB.Length == TableSize && tableA.Length == TableSize
      && tableR != tableG && tableR != tableB && tableR != tableA
      && tableG != tableB && tableG != tableA && tableB != tableA
      && (lastPoints != null ==>
            lastCalcType.Some? && lastInterpType.Some? && lastHueInterp.Some?
            && |builtFrom| > 0 && AllConvertible(builtFrom, lastCalcType.value)
            && TablesHold(builtFrom, lastCalcType.value, lastInterpType.value, lastHueInterp.value))
    }

    /** The points the tables are built from now: the item's points in position
        order, or the black-to-white pair when there are fewer than two. */
    function CurrentPoints(): (ps: seq<ControlPoint>)
      reads item, item.points, item.points.items
      ensures |ps| >= 2
    {
      EffectivePoints(Snapshot(SortedRefs(item.points.items)))
    }

    /** Every point colour of the item can go through FromColor in the item's colour model. */
    predicate ItemConvertible()
      reads item, item.points, item.points.items
    {
      forall p :: p in item.points.items ==> Convertible(p.color, ModeOf(item.gradientCalculationType))
    }

    /** The caches equal the item's current settings: what holds right after an Update. */
    predicate CachesCurrent()
      reads this`lastEffectiveInputChannel, this`lastPoints, this`lastCalcType, this`lastInterpType
      reads this`lastHueInterp, item
    {
      lastEffectiveInputChannel == Some(EffectiveChannel(item.loadOpacityToggle, item.inputChannel))
      && !GradientChanged()
    }

    /** The test of Update for a table rebuild: the point list (by reference)
        or one of the three gradient settings differs from the cache. */
    predicate GradientChanged()
      reads this`lastPoints, this`lastCalcType, this`lastInterpType, this`lastHueInterp, item
    {
      lastPoints != item.points
      || lastCalcType != Some(item.gradientCalculationType)
      || lastInterpType != Some(item.gradientInterpolationType)
      || lastHueInterp != Some(item.gradientInterpolationHSLHSVType)
    }

    constructor (item: E.ColorRampEffect)
      ensures Valid() && this.item == item
      ensures fresh(tableR) && fresh(tableG) && fresh(tableB) && fresh(tableA) && fresh(mixEffect)
      ensures lastPoints == null && lastEffectiveInputChannel == None
      ensures lastCalcType == None && lastInterpType == None && lastHueInterp == None
      ensures matrix == None && crossFadeWeight == None && !formatterReadsHue
    {
      this.item := item;
      mixEffect := new Mix.EffectImpl();
      tableR := new real[TableSize](_ => 0.0);
      tableG := new real[TableSize](_ => 0.0);
      tableB := new real[TableSize](_ => 0.0);
      tableA := new real[TableSize](_ => 0.0);
      lastEffectiveInputChannel := None;
      lastPoints := null;
      lastCalcType := None;
      lastInterpType := None;
      lastHueInterp := None;
      matrix := None;
      formatterReadsHue := false;
      crossFadeWeight := None;
      builtFrom := [];
    }

    /** One frame. The matrix is rebuilt only when the effective channel moved,
        the tables only when the gradient changed; afterwards every cache holds
        the current setting, so an immediate second Update rebuilds nothing. */
    method Update(strength: real)
      requires Valid() && ItemConvertible()
      modifies this, tableR, tableG, tableB, tableA
      modifies mixEffect`mixMode, mixEffect`keepCh1, mixEffect`keepCh2, mixEffect`keepCh3, mixEffect`keepAlpha
      ensures Valid() && CachesCurrent()
      ensures var ch := EffectiveChannel(old(item.loadOpacityToggle), old(item.inputChannel));
        if old(lastEffectiveInputChannel) != Some(ch) then
          matrix == Some(ChannelMatrix(ch)) && formatterReadsHue == UsesRgbToHue(ch)
        else
          matrix == old(matrix) && formatterReadsHue == old(formatterReadsHue)
      ensures old(GradientChanged()) ==>
        builtFrom == old(CurrentPoints())
        && TablesHold(builtFrom, item.gradientCalculationType,
                      item.gradientInterpolationType, item.gradientInterpolationHSLHSVType)
      ensures !old(GradientChanged()) ==>
        builtFrom == old(builtFrom) && unchanged(tableR, tableG, tableB, tableA)
      ensures mixEffect.MixMode() == Mix.MixModeCode(item.mixColorSpace)
      ensures mixEffect.KeepCh1() == item.keepCh1 && mixEffect.KeepCh2() == item.keepCh2
      ensures mixEffect.KeepCh3() == item.keepCh3
      ensures mixEffect.KeepAlpha() == EffectiveKeepAlpha(item.loadOpacityToggle, item.keepAlpha)
      ensures crossFadeWeight == Some(CrossFadeFactor(strength))
    {
      var effectiveInputChannel := EffectiveChannel(item.loadOpacityToggle, item.inputChannel);
      var effectiveKeepAlpha := EffectiveKeepAlpha(item.loadOpacityToggle, item.keepAlpha);
      DetectChanges(effectiveInputChannel);
      PushMixParameters(effectiveKeepAlpha);

      var factor := strength / 100.0;
      factor := Clamp(factor, 0.0, 1.0);
      factor := 1.0 - factor;
      crossFadeWeight := Some(factor);
    }

    /** The change detection of Update: compare the effective channel and the gradient
        settings with the caches, rebuild what changed, and update the caches. */
    method DetectChanges(effectiveInputChannel: E.GradientInputChannel)
      requires Valid() && ItemConvertible()
      requires effectiveInputChannel == EffectiveChannel(item.loadOpacityToggle, item.inputChannel)
      modifies this, tableR, tableG, tableB, tableA
      ensures Valid() && CachesCurrent()
      ensures if old(lastEffectiveInputChannel) != Some(effectiveInputChannel) then
          matrix == Some(ChannelMatrix(effectiveInputChannel))
          && formatterReadsHue == UsesRgbToHue(effectiveInputChannel)
        else
          matrix == old(matrix) && formatterReadsHue == old(formatterReadsHue)
      ensures old(GradientChanged()) ==>
        builtFrom == old(CurrentPoints())
        && TablesHold(builtFrom, item.gradientCalculationType,
                      item.gradientInterpolationType, item.gradientInterpolationHSLHSVType)
      ensures !old(GradientChanged()) ==>
        builtFrom == old(builtFrom) && unchanged(tableR, tableG, tableB, tableA)
    {
      // Update compares the input channel first; the two comparisons
      // touch disjoint fields, so the order is not observable.
      SyncGradient();
      SyncInputPipeline(effectiveInputChannel);
    }

    /** The input branch of Update: rebuild the matrix when the effective
        channel differs from the cached one, then cache it. */
    method SyncInputPipeline(effectiveInputChannel: E.GradientInputChannel)
      modifies this`matrix, this`formatterReadsHue, this`lastEffectiveInputChannel
      ensures lastEffectiveInputChannel == Some(effectiveInputChannel)
      ensures if old(lastEffectiveInputChannel) != Some(effectiveInputChannel) then
          matrix == Some(ChannelMatrix(effectiveInputChannel))
          && formatterReadsHue == UsesRgbToHue(effectiveInputChannel)
        else
          matrix == old(matrix) && formatterReadsHue == old(formatterReadsHue)
    {
      var inputSettingChanged := lastEffectiveInputChannel != Some(effectiveInputChannel);
      if inputSettingChanged {
        UpdateInputPipeline(effectiveInputChannel);
        lastEffectiveInputChannel := Some(effectiveInputChannel);
      }
    }

    /** The gradient branch of Update: rebuild the tables only when the
        gradient changed. */
    method SyncGradient()
      requires Valid() && ItemConvertible()
      modifies this`lastPoints, this`lastCalcType, this`lastInterpType, this`lastHueInterp, this`builtFrom
      modifies tableR, tableG, tableB, tableA
      ensures Valid() && !GradientChanged()
      ensures old(GradientChanged()) ==>
        builtFrom == old(CurrentPoints())
        && TablesHold(builtFrom, item.gradientCalculationType,
                      item.gradientInterpolationType, item.gradientInterpolationHSLHSVType)
      ensures !old(GradientChanged()) ==>
        builtFrom == old(builtFrom) && unchanged(tableR, tableG, tableB, tableA)
    {
      var gradientChanged := GradientChanged();
      if gradientChanged {
        CurrentPointsFramed();
        RefreshGradient();
      }
    }

    /** The gradient branch of Update: rebuild the tables, then remember the
        point list and the three settings they were built from. */
    method RefreshGradient()
      requires ItemConvertible()
      requires tableR.Length == TableSize && tableG.Length == TableSize
      requires tableB.Length == TableSize && tableA.Length == TableSize
      requires tableR != tableG && tableR != tableB && tableR != tableA
      requires tableG != tableB && tableG != tableA && tableB != tableA
      modifies this`lastPoints, this`lastCalcType, this`lastInterpType, this`lastHueInterp, this`builtFrom
      modifies tableR, tableG, tableB, tableA
      ensures Valid() && !GradientChanged()
      ensures builtFrom == old(CurrentPoints())
    {
      ghost var current := CurrentPoints();
      var calcType, interpType, hueInterp :=
        item.gradientCalculationType, item.gradientInterpolationType, item.gradientInterpolationHSLHSVType;
      UpdateGradientTables();
      assert AllConvertible(current, calcType) && TablesHold(current, calcType, interpType, hueInterp);
      RememberGradient(current);
    }

    /** The cache writes of the gradient branch. */
    method RememberGradient(ghost current: seq<ControlPoint>)
      modifies this`lastPoints, this`lastCalcType, this`lastInterpType, this`lastHueInterp, this`builtFrom
      ensures lastPoints == item.points && lastCalcType == Some(item.gradientCalculationType)
      ensures lastInterpType == Some(item.gradientInterpolationType)
      ensures lastHueInterp == Some(item.gradientInterpolationHSLHSVType)
      ensures builtFrom == current
    {
      lastPoints := item.points;
      lastCalcType := Some(item.gradientCalculationType);
      lastInterpType := Some(item.gradientInterpolationType);
      lastHueInterp := Some(item.gradientInterpolationHSLHSVType);
      builtFrom := current;
    }

    /** The sorted point values depend only on the item, its point list and
        the points themselves. */
    twostate lemma CurrentPointsFramed()
      requires old(item.points) == item.points
      requires unchanged(item, item.points) && unchanged(item.points.items)
      ensures CurrentPoints() == old(CurrentPoints())
    {
    }

    /** The mix parameters of Update: the mix settings go to the mix effect every frame. */
    method PushMixParameters(effectiveKeepAlpha: bool)
      modifies mixEffect`mixMode, mixEffect`keepCh1, mixEffect`keepCh2, mixEffect`keepCh3, mixEffect`keepAlpha
      ensures mixEffect.MixMode() == Mix.MixModeCode(item.mixColorSpace)
      ensures mixEffect.KeepCh1() == item.keepCh1 && mixEffect.KeepCh2() == item.keepCh2
      ensures mixEffect.KeepCh3() == item.keepCh3
      ensures mixEffect.KeepAlpha() == effectiveKeepAlpha
    {
      mixEffect.SetMixMode(Mix.MixModeCode(item.mixColorSpace));
      mixEffect.SetKeepCh1(item.keepCh1);
      mixEffect.SetKeepCh2(item.keepCh2);
      mixEffect.SetKeepCh3(item.keepCh3);
      mixEffect.SetKeepAlpha(effectiveKeepAlpha);
    }

    /** UpdateInputPipeline: a zero matrix with the channel's rows filled in,
        and the ColorMatrix input switched to RgbToHue for H, S and V. */
    method UpdateInputPipeline(channel: E.GradientInputChannel)
      modifies this`matrix, this`formatterReadsHue
      ensures matrix == Some(ChannelMatrix(channel))
      ensures formatterReadsHue == UsesRgbToHue(channel)
    {
      var m := ZeroMatrix;
      match channel {
        case R =>
          formatterReadsHue := false;
          m := m[0 := Row(1.0)];
        case G =>
          formatterReadsHue := false;
          m := m[1 := Row(1.0)];
        case B =>
          formatterReadsHue := false;
          m := m[2 := Row(1.0)];
        case L =>
          formatterReadsHue := false;
          m := m[0 := Row(LumaR)][1 := Row(LumaG)][2 := Row(LumaB)];
        case A =>
          formatterReadsHue := false;
          m := m[3 := Row(1.0)];
        case H =>
          formatterReadsHue := true;
          m := m[0 := Row(1.0)];
        case S =>
          formatterReadsHue := true;
          m := m[1 := Row(1.0)];
        case V =>
          formatterReadsHue := true;
          m := m[2 := Row(1.0)];
      }
      matrix := Some(m);
    }

    /** UpdateGradientTables: sort (or fall back), then fill entry i of the four
        tables with the ramp colour at t = i / 255. */
    method UpdateGradientTables()
      requires tableR.Length == TableSize && tableG.Length == TableSize
      requires tableB.Length == TableSize && tableA.Length == TableSize
      requires tableR != tableG && tableR != tableB && tableR != tableA
      requires tableG != tableB && tableG != tableA && tableB != tableA
      requires ItemConvertible()
      modifies tableR, tableG, tableB, tableA
      ensures AllConvertible(old(CurrentPoints()), item.gradientCalculationType)
      ensures TablesHold(old(CurrentPoints()), item.gradientCalculationType,
                         item.gradientInterpolationType, item.gradientInterpolationHSLHSVType)
    {
      var points := Snapshot(SortedRefs(item.points.items));
      if |points| < 2 {
        points := [ControlPoint(0.0, Black), ControlPoint(1.0, White)];
      }
      var calcType := item.gradientCalculationType;
      var interpType := item.gradientInterpolationType;
      var hueInterp := item.gradientInterpolationHSLHSVType;
      CurrentPointsConvertible();
      assert points == CurrentPoints();
      FillTables(points, calcType, interpType, hueInterp, RampTable(points, calcType, interpType, hueInterp));
    }

    /** The loop of UpdateGradientTables: entry i of the four tables receives
        the ramp colour at t = i / 255. */
    method FillTables(points: seq<ControlPoint>, calcType: E.GradientType,
                      interpType: E.GradientInterpolation, hueInterp: E.GradientInterpolationHSLHSV,
                      ghost table: seq<Color>)
      requires |points| > 0 && AllConvertible(points, calcType)
      requires |table| == TableSize
      requires forall k {:trigger RampColor(points, SampleT(k), calcType, interpType, hueInterp)} ::
        0 <= k < TableSize ==> table[k] == RampColor(points, SampleT(k), calcType, interpType, hueInterp)
      requires tableR.Length == TableSize && tableG.Length == TableSize
      requires tableB.Length == TableSize && tableA.Length == TableSize
      requires tableR != tableG && tableR != tableB && tableR != tableA
      requires tableG != tableB && tableG != tableA && tableB != tableA
      modifies tableR, tableG, tableB, tableA
      ensures TablesEqual(table)
    {
      var i := 0;
      while i < TableSize
        invariant 0 <= i <= TableSize
        invariant forall k :: 0 <= k < i ==>
          tableR[k] == table[k].r && tableG[k] == table[k].g && tableB[k] == table[k].b && tableA[k] == table[k].a
      {
        FillEntry(points, calcType, interpType, hueInterp, table, i);
        i := i + 1;
      }
    }

    /** One iteration of the table loop: sample the ramp at i / 255 and store
        its four channels at index i of the four tables. */
    method FillEntry(points: seq<ControlPoint>, calcType: E.GradientType,
                     interpType: E.GradientInterpolation, hueInterp: E.GradientInterpolationHSLHSV,
                     ghost table: seq<Color>, i: nat)
      requires |points| > 0 && AllConvertible(points, calcType)
      requires |table| == TableSize && i < TableSize
      requires table[i] == RampColor(points, SampleT(i), calcType, interpType, hueInterp)
      requires tableR.Length == TableSize && tableG.Length == TableSize
      requires tableB.Length == TableSize && tableA.Length == TableSize
      requires tableR != tableG && tableR != tableB && tableR != tableA
      requires tableG != tableB && tableG != tableA && tableB != tableA
      modifies tableR, tableG, tableB, tableA
      ensures tableR[i] == table[i].r && tableG[i] == table[i].g
      ensures tableB[i] == table[i].b && tableA[i] == table[i].a
      ensures forall k :: 0 <= k < TableSize && k != i ==>
        tableR[k] == old(tableR[k]) && tableG[k] == old(tableG[k])
        && tableB[k] == old(tableB[k]) && tableA[k] == old(tableA[k])
    {
      var t := i as real / 255.0;
      var resultColor := RampSample(points, t, calcType, interpType, hueInterp);
      assert t == SampleT(i);
      tableR[i] := resultColor.r;
      tableG[i] := resultColor.g;
      tableB[i] := resultColor.b;
      tableA[i] := resultColor.a;
    }

    /** The body of the table loop for one sample position t: a spline sample,
        or the bracketing segment, its local parameter, the easing and the
        colour interpolation. */
    static method RampSample(points: seq<ControlPoint>, t: real, calcType: E.GradientType,
                             interpType: E.GradientInterpolation, hueInterp: E.GradientInterpolationHSLHSV)
      returns (resultColor: Color)
      requires |points| > 0 && AllConvertible(points, calcType)
      ensures resultColor == RampColor(points, t, calcType, interpType, hueInterp)
    {
      if interpType == E.Cardinal || interpType == E.BSpline {
        resultColor := GetSplineColor(points, t, interpType);
        RampColorCases(points, t, calcType, interpType, hueInterp);
      } else {
        var segment := Bracket(points, t);
        var p1, p2 := segment.p1, segment.p2;
        var localT := 0.0;
        if p2.position > p1.position {
          localT := (t - p1.position) / (p2.position - p1.position);
        }
        assert localT == LocalT(segment, t);
        var easedT := localT;
        if interpType == E.Ease {
          easedT := Smoothstep(localT);
        } else if interpType == E.Constant {
          easedT := 0.0;
        }
        assert easedT == Eased(localT, interpType);
        RampColorCases(points, t, calcType, interpType, hueInterp);
        resultColor := InterpolateColor(p1.color, p2.color, easedT, calcType, hueInterp);
      }
    }

    /** The point values after sorting inherit the colours of the item's points. */
    lemma CurrentPointsConvertible()
      requires ItemConvertible()
      ensures AllConvertible(CurrentPoints(), item.gradientCalculationType)
    {
      var refs := SortedRefs(item.points.items);
      var snap := Snapshot(refs);
      forall k | 0 <= k < |snap| ensures Convertible(snap[k].color, ModeOf(item.gradientCalculationType)) {
        assert refs[k] in multiset(item.points.items);
      }
      UnitPairConvertible(item.gradientCalculationType);
    }

    lemma UnitPairConvertible(gradient: E.GradientType)
      ensures AllConvertible([ControlPoint(0.0, Black), ControlPoint(1.0, White)], gradient)
    {
      var ps := [ControlPoint(0.0, Black), ControlPoint(1.0, White)];
      assert AllUnit(ps);
      AllUnitConvertible(ps, gradient);
    }

    /** The search loop of GetSplineColor: the first i whose next point is at
        or after t, or the last index. */
    static method FindSegment(points: seq<ControlPoint>, t: real) returns (i: nat)
      requires |points| > 0
      ensures i == SplineIndex(points, t)
    {
      i := 0;
      while i < |points| - 1
        invariant 0 <= i <= |points| - 1
        invariant SplineIndexFrom(points, t, i) == SplineIndex(points, t)
      {
        if t <= points[i + 1].position {
          break;
        }
        i := i + 1;
      }
    }

    /** GetSplineColor: the loop finds the segment index, the four neighbours
        are clamped to the list, and each channel goes through the basis and a
        clamp to [0, 1]. The local parameter is not clamped, so before the
        first point it is negative (see SplineColorAsWritten). */
    static method GetSplineColor(points: seq<ControlPoint>, t: real, interp: E.GradientInterpolation) returns (c: Color)
      requires |points| > 0
      ensures c == SplineColorAsWritten(points, t, interp)
    {
      var i := FindSegment(points, t);
      var n := |points|;
      var p1 := points[i];
      var p2 := points[if i + 1 < n - 1 then i + 1 else n - 1];
      var p0 := points[if i - 1 > 0 then i - 1 else 0];
      var p3 := points[if i + 2 < n - 1 then i + 2 else n - 1];
      ghost var k := NeighboursOf(n, i);
      assert p0 == points[k.k0] && p1 == points[k.k1] && p2 == points[k.k2] && p3 == points[k.k3];

      var localT := 0.0;
      if p2.position > p1.position {
        localT := (t - p1.position) / (p2.position - p1.position);
      }
      assert localT == LocalT(SplineSegment(points, i), t);

      var r, g, b, a;
      if interp == E.Cardinal {
        r := Cardinal(p0.color.r, p1.color.r, p2.color.r, p3.color.r, localT);
        g := Cardinal(p0.color.g, p1.color.g, p2.color.g, p3.color.g, localT);
        b := Cardinal(p0.color.b, p1.color.b, p2.color.b, p3.color.b, localT);
        a := Cardinal(p0.color.a, p1.color.a, p2.color.a, p3.color.a, localT);
      } else {
        r := BSpline(p0.color.r, p1.color.r, p2.color.r, p3.color.r, localT);
        g := BSpline(p0.color.g, p1.color.g, p2.color.g, p3.color.g, localT);
        b := BSpline(p0.color.b, p1.color.b, p2.color.b, p3.color.b, localT);
        a := BSpline(p0.color.a, p1.color.a, p2.color.a, p3.color.a, localT);
      }
      c := Color(Clamp(a, 0.0, 1.0), Clamp(r, 0.0, 1.0), Clamp(g, 0.0, 1.0), Clamp(b, 0.0, 1.0));
    }
  }
}

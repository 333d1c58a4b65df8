/** ColorRampEffect: the effect item that owns the ramp's point list and
    settings. Points and EditorPoints are two setters over the one backing
    field; only the first notifies the editor. */
module Effect {
  import opened Colors
  import opened Points

  /** Colour model of the interpolation (GradientType). */
  datatype GradientType = RGB | HSL | HSV

  /** Easing between two points, or a spline through four (GradientInterpolation). */
  datatype GradientInterpolation = Linear | Ease | Cardinal | BSpline | Constant

  /** Direction taken around the hue circle (GradientInterpolationHSLHSV). */
  datatype GradientInterpolationHSLHSV = Near | Far | Clockwise | CounterClockwise

  /** The channel of the source image that drives the ramp. */
  datatype GradientInputChannel = R | G | B | L | A | H | S | V

  /** The colour space in which the mix shader keeps channels of the source. */
  datatype MixColorSpace = MixRGB | MixHSL | MixHSV

  /** An ImmutableList<GradientPoint>: its items never change, and the effect
      and the processor compare lists by reference. */
  class PointList {
    const items: seq<GradientPoint>

    constructor (items: seq<GradientPoint>)
      ensures this.items == items
    {
      this.items := items;
    }
  }

  /** What GetAnimatables yields: a point, or the strength animation ColorRampFactor. */
  datatype Animatable = PointAnimatable(point: GradientPoint) | FactorAnimatable

  class ColorRampEffect {
    /** The backing field shared by Points and EditorPoints. */
    var points: PointList
    var loadOpacityToggle: bool
    var gradientCalculationType: GradientType
    var gradientInterpolationType: GradientInterpolation
    var gradientInterpolationHSLHSVType: GradientInterpolationHSLHSV
    var inputChannel: GradientInputChannel
    var keepAlpha: bool
    var keepCh1: bool
    var keepCh2: bool
    var keepCh3: bool
    var mixColorSpace: MixColorSpace
    /** The lists passed to OnPointsChangedBySystem so far, oldest first. */
    var pointsChangedBySystem: seq<PointList>

    /** A new effect holds black at 0 and white at 1, RGB, Linear, Near,
        the opacity toggle off, and has raised no notification. */
    constructor ()
      ensures fresh(points) && |points.items| == 2
      ensures fresh(points.items[0]) && fresh(points.items[1])
      ensures Snapshot(points.items) == [ControlPoint(0.0, Black), ControlPoint(1.0, White)]
      ensures gradientCalculationType == RGB
      ensures gradientInterpolationType == Linear
      ensures gradientInterpolationHSLHSVType == Near
      ensures !loadOpacityToggle
      ensures pointsChangedBySystem == []
    {
      var black := new GradientPoint(0.0, Black);
      var white := new GradientPoint(1.0, White);
      points := new PointList([black, white]);
      loadOpacityToggle := false;
      gradientCalculationType := RGB;
      gradientInterpolationType := Linear;
      gradientInterpolationHSLHSVType := Near;
      inputChannel := R;
      keepAlpha := false;
      keepCh1 := false;
      keepCh2 := false;
      keepCh3 := false;
      mixColorSpace := MixRGB;
      pointsChangedBySystem := [];
    }

    /** The Points getter. */
    function Points(): PointList
      reads this
    {
      points
    }

    /** The EditorPoints getter: the same backing field as Points. */
    function EditorPoints(): (l: PointList)
      reads this
      ensures l == Points()
    {
      points
    }

    /** The Points setter (load, undo): the same list is a no-op; another list
        is stored and announced to the editor. */
    method SetPoints(value: PointList)
      modifies this`points, this`pointsChangedBySystem
      ensures points == value
      ensures old(points) == value ==> pointsChangedBySystem == old(pointsChangedBySystem)
      ensures old(points) != value ==> pointsChangedBySystem == old(pointsChangedBySystem) + [value]
    {
      if points == value {
        return;
      }
      points := value;
      pointsChangedBySystem := pointsChangedBySystem + [value];
    }

    /** The EditorPoints setter (the editor's own writes): stores the list
        without announcing it. */
    method SetEditorPoints(value: PointList)
      modifies this`points
      ensures points == value
    {
      if points == value {
        return;
      }
      points := value;
    }

    /** GetAnimatables: every point in list order, then ColorRampFactor. */
    method GetAnimatables() returns (r: seq<Animatable>)
      ensures |r| == |points.items| + 1
      ensures forall i :: 0 <= i < |points.items| ==> r[i] == PointAnimatable(points.items[i])
      ensures r[|points.items|] == FactorAnimatable
    {
      var items := points.items;
      r := [];
      var i := 0;
      while i < |items|
        invariant 0 <= i <= |items|
        invariant |r| == i
        invariant forall k :: 0 <= k < i ==> r[k] == PointAnimatable(items[k])
      {
        r := r + [PointAnimatable(items[i])];
        i := i + 1;
      }
      r := r + [FactorAnimatable];
    }
  }

  /** Writing through either setter is visible through both getters. */
  method SettersShareBackingField(e: ColorRampEffect, l1: PointList, l2: PointList)
    modifies e
    ensures e.Points() == l2 && e.EditorPoints() == l2
  {
    e.SetPoints(l1);
    assert e.EditorPoints() == l1;
    e.SetEditorPoints(l2);
  }
}

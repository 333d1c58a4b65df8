/** The editor's two WPF value converters: a point position to a horizontal
    pixel offset on the gradient bar, and a 0..1 ratio to a percentage and back. */
module Converters {
  import opened Numeric
  import opened Wrappers

  /** A boxed binding value, as far as the converters' type tests
      (double, string, anything else) can tell them apart. */
  datatype Boxed = BoxedDouble(d: real) | BoxedString(s: string) | BoxedInt(i: int) | BoxedOther

  /** The bar's blank margins in pixels: none on the left, eight on the right. */
  const LeftPadding: real := 0.0
  const RightPadding: real := 8.0

  /** GradientPositionConverter.Convert: for a (position, total width) pair of
      doubles, the position scaled over the width left between the paddings;
      0.0 for anything else and when no width is left. */
  function PositionToOffset(values: seq<Boxed>): (x: real)
    ensures !(|values| == 2 && values[0].BoxedDouble? && values[1].BoxedDouble?) ==> x == 0.0
    ensures |values| == 2 && values[0].BoxedDouble? && values[1].BoxedDouble? ==>
      (values[1].d <= 8.0 ==> x == 0.0) && (values[1].d > 8.0 ==> x == values[0].d * (values[1].d - 8.0))
  {
    if |values| == 2 && values[0].BoxedDouble? && values[1].BoxedDouble? then
      var position := values[0].d;
      var effectiveWidth := values[1].d - LeftPadding - RightPadding;
      if effectiveWidth <= 0.0 then 0.0 else LeftPadding + position * effectiveWidth
    else 0.0
  }

  /** The width a position is spread over: total width minus both paddings,
      and nothing when that is not positive. */
  function UsableWidth(totalWidth: real): (w: real)
    ensures w >= 0.0
    ensures totalWidth > LeftPadding + RightPadding ==> w == totalWidth - LeftPadding - RightPadding
  {
    Max(totalWidth - LeftPadding - RightPadding, 0.0)
  }

  /** Positions in [0, 1] land on the bar: between the left padding and the
      right padding, with 0 on the left edge and 1 on the right edge. */
  lemma OffsetOnBar(position: real, totalWidth: real)
    requires 0.0 <= position <= 1.0
    ensures var x := PositionToOffset([BoxedDouble(position), BoxedDouble(totalWidth)]);
      LeftPadding <= x <= LeftPadding + UsableWidth(totalWidth)
    ensures PositionToOffset([BoxedDouble(0.0), BoxedDouble(totalWidth)]) == LeftPadding
    ensures PositionToOffset([BoxedDouble(1.0), BoxedDouble(totalWidth)]) == LeftPadding + UsableWidth(totalWidth)
  {
    var w := totalWidth - LeftPadding - RightPadding;
    if w > 0.0 {
      ScaleBetween(w, position);
      assert position * w == Scale(w, position);
    }
  }

  /** A point further right is drawn no further left. */
  lemma OffsetMonotone(p1: real, p2: real, totalWidth: real)
    requires p1 <= p2
    ensures PositionToOffset([BoxedDouble(p1), BoxedDouble(totalWidth)])
         <= PositionToOffset([BoxedDouble(p2), BoxedDouble(totalWidth)])
  {
    var w := totalWidth - LeftPadding - RightPadding;
    if w > 0.0 {
      NonNegativeScale(p2 - p1, w);
      assert p2 * w - p1 * w == (p2 - p1) * w;
    }
  }

  /** On a bar wider than the paddings the offset determines the position:
      dividing the offset by the usable width gives the position back. */
  lemma OffsetDeterminesPosition(position: real, totalWidth: real)
    requires totalWidth > LeftPadding + RightPadding
    ensures (PositionToOffset([BoxedDouble(position), BoxedDouble(totalWidth)]) - LeftPadding)
            / UsableWidth(totalWidth) == position
  {
    var w := totalWidth - LeftPadding - RightPadding;
    assert (position * w) / w == position;
  }

  /** Math.Round with MidpointRounding.ToEven: the nearest integer, and the
      even one of the two when y lies exactly half-way. */
  function RoundHalfEven(y: real): (k: int)
    ensures -0.5 <= y - k as real <= 0.5
    ensures (y - k as real == 0.5 || y - k as real == -0.5) ==> k % 2 == 0
  {
    var f := y.Floor;
    var frac := y - f as real;
    if frac < 0.5 then f
    else if frac > 0.5 then f + 1
    else if f % 2 == 0 then f
    else f + 1
  }

  /** An integer is its own rounding. */
  lemma RoundHalfEvenOfInteger(k: int)
    ensures RoundHalfEven(k as real) == k
  {
    assert (k as real).Floor == k;
  }

  /** Math.Round(x, 1): x scaled by ten, rounded half to even, scaled back. */
  function RoundTenths(x: real): (r: real)
    ensures (r * 10.0).Floor as real == r * 10.0
    ensures -0.05 <= x - r <= 0.05
  {
    RoundHalfEven(x * 10.0) as real / 10.0
  }

  /** PercentConverter.Convert: a double ratio becomes a percentage with one
      decimal; anything else becomes the boxed int 0. */
  function PercentConvert(value: Boxed): (r: Boxed)
    ensures value.BoxedDouble? ==> r.BoxedDouble? && -0.05 <= value.d * 100.0 - r.d <= 0.05
    ensures value.BoxedDouble? ==> (r.d * 10.0).Floor as real == r.d * 10.0
    ensures !value.BoxedDouble? ==> r == BoxedInt(0)
  {
    if value.BoxedDouble? then BoxedDouble(RoundTenths(value.d * 100.0)) else BoxedInt(0)
  }

  /** r is the percentage p read as a ratio: p / 100 inside [0, 100], and the
      nearer end of [0, 1] outside it. */
  predicate ReadsPercent(p: real, r: real)
  {
    (0.0 <= p <= 100.0 ==> r * 100.0 == p)
    && (p < 0.0 ==> r == 0.0)
    && (p > 100.0 ==> r == 1.0)
  }

  /** PercentConverter.ConvertBack: a string that parses, or a double, is read
      as a percentage and clamped into [0, 1]; anything else gives 0.0.
      The parameter parse stands for double.TryParse under the current culture. */
  function PercentConvertBack(value: Boxed, parse: string -> Option<real>): (r: real)
    ensures 0.0 <= r <= 1.0
    ensures value.BoxedString? && parse(value.s).Some? ==> ReadsPercent(parse(value.s).value, r)
    ensures value.BoxedDouble? ==> ReadsPercent(value.d, r)
    ensures !value.BoxedDouble? && !(value.BoxedString? && parse(value.s).Some?) ==> r == 0.0
  {
    if value.BoxedString? && parse(value.s).Some? then Clamp(parse(value.s).value / 100.0, 0.0, 1.0)
    else if value.BoxedDouble? then Clamp(value.d / 100.0, 0.0, 1.0)
    else 0.0
  }

  /** A larger percentage never reads as a smaller ratio. */
  lemma PercentConvertBackMonotone(d1: real, d2: real, parse: string -> Option<real>)
    requires d1 <= d2
    ensures PercentConvertBack(BoxedDouble(d1), parse) <= PercentConvertBack(BoxedDouble(d2), parse)
  {
  }

  /** A string that parses reads exactly as the double it parses to. */
  lemma PercentConvertBackString(s: string, parse: string -> Option<real>)
    requires parse(s).Some?
    ensures PercentConvertBack(BoxedString(s), parse) == PercentConvertBack(BoxedDouble(parse(s).value), parse)
  {
  }

  /** A ratio in [0, 1] given to a thousandth survives the text box: shown as
      a percentage with one decimal and read back, it is the same ratio. */
  lemma PercentRoundTrip(k: int, parse: string -> Option<real>)
    requires 0 <= k <= 1000
    ensures var d := k as real / 1000.0;
      var shown := PercentConvert(BoxedDouble(d));
      shown.BoxedDouble? && PercentConvertBack(shown, parse) == d
  {
    var d := k as real / 1000.0;
    assert d * 100.0 * 10.0 == k as real;
    RoundHalfEvenOfInteger(k);
    assert RoundTenths(d * 100.0) == k as real / 10.0;
  }

  /** Any ratio in [0, 1] comes back within half a thousandth of itself. */
  lemma PercentRoundTripClose(d: real, parse: string -> Option<real>)
    requires 0.0 <= d <= 1.0
    ensures var shown := PercentConvert(BoxedDouble(d));
      shown.BoxedDouble? && -0.0005 <= d - PercentConvertBack(shown, parse) <= 0.0005
  {
    var shown := PercentConvert(BoxedDouble(d));
    var p := shown.d;
    var back := PercentConvertBack(shown, parse);
    assert -0.05 <= d * 100.0 - p <= 0.05;
    if p < 0.0 {
      assert back == 0.0;
    } else if p > 100.0 {
      assert back == 1.0;
    } else {
      assert back == p / 100.0;
    }
  }
}

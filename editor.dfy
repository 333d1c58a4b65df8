/** GradientEditorViewModel: the editor's own list of point objects, the four
    edit commands, the sorted copy it hands to the effect, and the preview
    brush built from the points. */
module Editor {
  import opened Numeric
  import opened Colors
  import opened Wrappers
  import opened Sorting
  import opened Points
  import opened Interp
  import opened Ramp
  import E = Effect
  import HsvHsl

  /** BeginEdit and EndEdit, the events that bracket one undoable edit. */
  datatype EditEvent = BeginEdit | EndEdit

  /** Proof helper only: the two single-event appends of BeginEdit and EndEdit
      give the pair, which the commands' event ensures are written with. */
  lemma EditBracket(events: seq<EditEvent>)
    ensures events + [BeginEdit] + [EndEdit] == events + [BeginEdit, EndEdit]
  {
  }

  /** A stop of the preview brush. */
  datatype GradientStop = GradientStop(color: Color, offset: real)

  // The preview samples each segment at j / 10 for j = 0 .. 10: eleven stops
  // per segment. The numbers are written out where they are used, so that the
  // solver sees division by a literal.

  /** The editor's InterpolateColor, which only the HSV / HSL preview calls:
      the processor's HSV / HSL interpolation, HSL for HSL and HSV otherwise. */
  function PreviewColor(c1: Color, c2: Color, t: real, gradient: E.GradientType,
                        policy: E.GradientInterpolationHSLHSV): (c: Color)
    requires Convertible(c1, ModeOf(gradient)) && Convertible(c2, ModeOf(gradient))
    ensures c.a == Lerp(c1.a, c2.a, t)
    ensures gradient != E.RGB ==> c == InterpolateColor(c1, c2, t, gradient, policy)
  {
    HsxInterpolate(c1, c2, t, ModeOf(gradient), policy)
  }

  /** The fraction of the way along a segment of sample j. */
  function SampleFraction(j: nat): real
  {
    j as real / 10.0
  }

  /** The position of sample j on the segment from p1 to p2. */
  function SegmentOffset(p1: ControlPoint, p2: ControlPoint, j: nat): real
  {
    Lerp(p1.position, p2.position, SampleFraction(j))
  }

  /** Sample j of the segment from p1 to p2: the colour at j / 10 and the
      position the same fraction of the way along. */
  function SegmentStop(p1: ControlPoint, p2: ControlPoint, j: nat, gradient: E.GradientType,
                       policy: E.GradientInterpolationHSLHSV): GradientStop
    requires Convertible(p1.color, ModeOf(gradient)) && Convertible(p2.color, ModeOf(gradient))
  {
    GradientStop(PreviewColor(p1.color, p2.color, SampleFraction(j), gradient, policy), SegmentOffset(p1, p2, j))
  }

  /** The first sample sits on p1, the last on p2, and every sample between them. */
  lemma SegmentOffsetOnSegment(p1: ControlPoint, p2: ControlPoint, j: nat)
    ensures j == 0 ==> SegmentOffset(p1, p2, j) == p1.position
    ensures j == 10 ==> SegmentOffset(p1, p2, j) == p2.position
    ensures j <= 10 ==> Min(p1.position, p2.position) <= SegmentOffset(p1, p2, j) <= Max(p1.position, p2.position)
  {
    if j <= 10 {
      LerpInRange(p1.position, p2.position, SampleFraction(j));
    }
  }

  /** A stop computed from the same colours and fraction is sample j. */
  lemma SegmentStopIs(p1: ControlPoint, p2: ControlPoint, j: nat, gradient: E.GradientType,
                      policy: E.GradientInterpolationHSLHSV, c: Color, offset: real)
    requires Convertible(p1.color, ModeOf(gradient)) && Convertible(p2.color, ModeOf(gradient))
    requires c == PreviewColor(p1.color, p2.color, SampleFraction(j), gradient, policy)
    requires offset == SegmentOffset(p1, p2, j)
    ensures GradientStop(c, offset) == SegmentStop(p1, p2, j, gradient, policy)
  {
  }

  /** The first n samples of one segment, in order. */
  function SegmentStops(p1: ControlPoint, p2: ControlPoint, n: nat, gradient: E.GradientType,
                        policy: E.GradientInterpolationHSLHSV): (stops: seq<GradientStop>)
    requires Convertible(p1.color, ModeOf(gradient)) && Convertible(p2.color, ModeOf(gradient))
    ensures |stops| == n
  {
    seq(n, j requires 0 <= j < n => SegmentStop(p1, p2, j, gradient, policy))
  }

  /** Element j of the first n samples is sample j. */
  lemma SegmentStopsAt(p1: ControlPoint, p2: ControlPoint, n: nat, j: nat, gradient: E.GradientType,
                       policy: E.GradientInterpolationHSLHSV)
    requires Convertible(p1.color, ModeOf(gradient)) && Convertible(p2.color, ModeOf(gradient))
    requires j < n
    ensures SegmentStops(p1, p2, n, gradient, policy)[j] == SegmentStop(p1, p2, j, gradient, policy)
  {
  }

  /** One more sample appends sample n. */
  lemma SegmentStopsGrow(p1: ControlPoint, p2: ControlPoint, n: nat, gradient: E.GradientType,
                         policy: E.GradientInterpolationHSLHSV)
    requires Convertible(p1.color, ModeOf(gradient)) && Convertible(p2.color, ModeOf(gradient))
    ensures SegmentStops(p1, p2, n + 1, gradient, policy)
         == SegmentStops(p1, p2, n, gradient, policy) + [SegmentStop(p1, p2, n, gradient, policy)]
  {
    var longer := SegmentStops(p1, p2, n + 1, gradient, policy);
    var shorter := SegmentStops(p1, p2, n, gradient, policy);
    assert forall j :: 0 <= j < n ==> longer[j] == shorter[j];
  }

  /** The samples of the first i segments, segment after segment. */
  function BlendedStops(ps: seq<ControlPoint>, i: nat, gradient: E.GradientType,
                        policy: E.GradientInterpolationHSLHSV): (stops: seq<GradientStop>)
    requires i < |ps| && AllConvertible(ps, gradient)
    ensures |stops| == 11 * i
  {
    if i == 0 then []
    else BlendedStops(ps, i - 1, gradient, policy) + SegmentStops(ps[i - 1], ps[i], 11, gradient, policy)
  }

  /** Where sample j of segment q sits among the preview's stops. */
  function StopIndex(q: nat, j: nat): nat
  {
    11 * q + j
  }

  /** Every stop index is sample k % 11 of segment k / 11. */
  lemma SplitIndex(k: nat) returns (q: nat, j: nat)
    ensures j < 11 && k == StopIndex(q, j)
  {
    q, j := k / 11, k % 11;
  }

  /** Stop indices are ordered by segment first and by sample within a segment. */
  lemma StopIndexOrder(qa: nat, ja: nat, qb: nat, jb: nat, n: nat)
    requires ja < 11 && jb < 11 && StopIndex(qa, ja) < StopIndex(qb, jb) < 11 * n
    ensures qa <= qb < n && (qa == qb ==> ja < jb)
  {
  }

  /** The RGB preview: one stop per point, with its colour at its position. */
  function PointStops(ps: seq<ControlPoint>, n: nat): (stops: seq<GradientStop>)
    requires n <= |ps|
    ensures |stops| == n
    ensures forall k :: 0 <= k < n ==> stops[k] == GradientStop(ps[k].color, ps[k].position)
  {
    if n == 0 then [] else PointStops(ps, n - 1) + [GradientStop(ps[n - 1].color, ps[n - 1].position)]
  }

  /** The stops UpdatePreview builds from the points in position order. */
  function PreviewStops(ps: seq<ControlPoint>, gradient: E.GradientType,
                        policy: E.GradientInterpolationHSLHSV): seq<GradientStop>
    requires |ps| > 0 && AllConvertible(ps, gradient)
  {
    if gradient != E.RGB then BlendedStops(ps, |ps| - 1, gradient, policy) else PointStops(ps, |ps|)
  }

  /** The shape of the preview: for RGB the points themselves; otherwise 11
      stops per adjacent pair, running from the first point of the pair to
      the second, each coloured as the processor colours that fraction of
      the segment. */
  lemma PreviewShape(ps: seq<ControlPoint>, gradient: E.GradientType, policy: E.GradientInterpolationHSLHSV)
    requires |ps| > 0 && AllConvertible(ps, gradient)
    ensures var stops := PreviewStops(ps, gradient, policy);
      gradient == E.RGB ==>
        |stops| == |ps| && forall k :: 0 <= k < |ps| ==> stops[k] == GradientStop(ps[k].color, ps[k].position)
    ensures var stops := PreviewStops(ps, gradient, policy);
      gradient != E.RGB ==>
        |stops| == 11 * (|ps| - 1)
        && forall i :: 0 <= i < |ps| - 1 ==>
             stops[StopIndex(i, 0)].offset == ps[i].position
             && stops[StopIndex(i, 10)].offset == ps[i + 1].position
             && stops[StopIndex(i, 0)].color == InterpolateColor(ps[i].color, ps[i + 1].color, 0.0, gradient, policy)
    ensures var stops := PreviewStops(ps, gradient, policy);
      gradient != E.RGB ==>
        forall i, j :: 0 <= i < |ps| - 1 && 0 <= j <= 10 ==>
          StopIndex(i, j) < |stops| && stops[StopIndex(i, j)] == SegmentStop(ps[i], ps[i + 1], j, gradient, policy)
  {
    if gradient != E.RGB {
      var stops := PreviewStops(ps, gradient, policy);
      forall i | 0 <= i < |ps| - 1
        ensures stops[StopIndex(i, 0)].offset == ps[i].position
        ensures stops[StopIndex(i, 10)].offset == ps[i + 1].position
        ensures stops[StopIndex(i, 0)].color == InterpolateColor(ps[i].color, ps[i + 1].color, 0.0, gradient, policy)
      {
        BlendedEnds(ps, i, gradient, policy);
      }
      BlendedAll(ps, gradient, policy);
    }
  }

  /** Every stop of the HSV / HSL preview is the sample of its segment. */
  lemma BlendedAll(ps: seq<ControlPoint>, gradient: E.GradientType, policy: E.GradientInterpolationHSLHSV)
    requires |ps| > 0 && AllConvertible(ps, gradient) && gradient != E.RGB
    ensures var stops := BlendedStops(ps, |ps| - 1, gradient, policy);
      forall i, j :: 0 <= i < |ps| - 1 && 0 <= j <= 10 ==>
        StopIndex(i, j) < |stops| && stops[StopIndex(i, j)] == SegmentStop(ps[i], ps[i + 1], j, gradient, policy)
  {
    forall i, j | 0 <= i < |ps| - 1 && 0 <= j <= 10
      ensures var stops := BlendedStops(ps, |ps| - 1, gradient, policy);
        StopIndex(i, j) < |stops| && stops[StopIndex(i, j)] == SegmentStop(ps[i], ps[i + 1], j, gradient, policy)
    {
      BlendedStopAt(ps, |ps| - 1, i, j, gradient, policy);
    }
  }

  /** Segment i of the HSV / HSL preview starts on point i and ends on point i + 1. */
  lemma BlendedEnds(ps: seq<ControlPoint>, i: nat, gradient: E.GradientType, policy: E.GradientInterpolationHSLHSV)
    requires i < |ps| - 1 && AllConvertible(ps, gradient) && gradient != E.RGB
    ensures var stops := BlendedStops(ps, |ps| - 1, gradient, policy);
      StopIndex(i, 10) < |stops|
      && stops[StopIndex(i, 0)].offset == ps[i].position
      && stops[StopIndex(i, 10)].offset == ps[i + 1].position
      && stops[StopIndex(i, 0)].color == InterpolateColor(ps[i].color, ps[i + 1].color, 0.0, gradient, policy)
  {
    SegmentEnds(ps[i], ps[i + 1], gradient, policy);
    BlendedStopAt(ps, |ps| - 1, i, 0, gradient, policy);
    BlendedStopAt(ps, |ps| - 1, i, 10, gradient, policy);
  }

  /** One stop of the first n segments: sample j of segment q. */
  lemma {:induction false} BlendedStopAt(ps: seq<ControlPoint>, n: nat, q: nat, j: nat, gradient: E.GradientType,
                      policy: E.GradientInterpolationHSLHSV)
    requires q < n < |ps| && j < 11 && AllConvertible(ps, gradient)
    ensures var stops := BlendedStops(ps, n, gradient, policy);
      StopIndex(q, j) < |stops| && stops[StopIndex(q, j)] == SegmentStop(ps[q], ps[q + 1], j, gradient, policy)
  {
    if q < n - 1 {
      BlendedStopAt(ps, n - 1, q, j, gradient, policy);
      BlendedPrefix(ps, n, StopIndex(q, j), gradient, policy);
    } else {
      BlendedLast(ps, n, j, gradient, policy);
    }
  }

  /** Adding segment n keeps the stops of the first n - 1 segments. */
  lemma BlendedPrefix(ps: seq<ControlPoint>, n: nat, k: nat, gradient: E.GradientType,
                      policy: E.GradientInterpolationHSLHSV)
    requires 0 < n < |ps| && k < 11 * (n - 1) && AllConvertible(ps, gradient)
    ensures BlendedStops(ps, n, gradient, policy)[k] == BlendedStops(ps, n - 1, gradient, policy)[k]
  {
    var prev := BlendedStops(ps, n - 1, gradient, policy);
    assert BlendedStops(ps, n, gradient, policy) == prev + SegmentStops(ps[n - 1], ps[n], 11, gradient, policy);
  }

  /** The last eleven stops of the first n segments are the samples of segment n - 1. */
  lemma BlendedLast(ps: seq<ControlPoint>, n: nat, j: nat, gradient: E.GradientType,
                    policy: E.GradientInterpolationHSLHSV)
    requires 0 < n < |ps| && j < 11 && AllConvertible(ps, gradient)
    ensures StopIndex(n - 1, j) < 11 * n
    ensures BlendedStops(ps, n, gradient, policy)[StopIndex(n - 1, j)] == SegmentStop(ps[n - 1], ps[n], j, gradient, policy)
  {
    var prev := BlendedStops(ps, n - 1, gradient, policy);
    var seg := SegmentStops(ps[n - 1], ps[n], 11, gradient, policy);
    assert BlendedStops(ps, n, gradient, policy) == prev + seg;
    SegmentStopsAt(ps[n - 1], ps[n], 11, j, gradient, policy);
    assert StopIndex(n - 1, j) == |prev| + j;
  }

  /** A segment's first sample sits on its first point, in that point's
      interpolated colour, and its last sample on the second point. */
  lemma SegmentEnds(p1: ControlPoint, p2: ControlPoint, gradient: E.GradientType,
                    policy: E.GradientInterpolationHSLHSV)
    requires Convertible(p1.color, ModeOf(gradient)) && Convertible(p2.color, ModeOf(gradient))
    requires gradient != E.RGB
    ensures SegmentStop(p1, p2, 0, gradient, policy).offset == p1.position
    ensures SegmentStop(p1, p2, 10, gradient, policy).offset == p2.position
    ensures SegmentStop(p1, p2, 0, gradient, policy).color
         == InterpolateColor(p1.color, p2.color, 0.0, gradient, policy)
  {
    SegmentOffsetOnSegment(p1, p2, 0);
    SegmentOffsetOnSegment(p1, p2, 10);
    assert SampleFraction(0) == 0.0;
  }

  /** With the points in position order, the preview's offsets never go
      back: a brush whose stops WPF can draw left to right. */
  lemma {:induction false} PreviewOffsetsOrdered(ps: seq<ControlPoint>, gradient: E.GradientType,
                                                 policy: E.GradientInterpolationHSLHSV)
    requires |ps| > 0 && AllConvertible(ps, gradient) && SortedBy(ps, PositionOf)
    ensures var stops := PreviewStops(ps, gradient, policy);
      forall a, b :: 0 <= a < b < |stops| ==> stops[a].offset <= stops[b].offset
  {
    var stops := PreviewStops(ps, gradient, policy);
    if gradient != E.RGB {
      forall a, b | 0 <= a < b < |stops| ensures stops[a].offset <= stops[b].offset {
        BlendedOffsetsOrdered(ps, a, b, gradient, policy);
      }
    } else {
      forall a, b | 0 <= a < b < |stops| ensures stops[a].offset <= stops[b].offset {
        assert PositionOf(ps[a]) <= PositionOf(ps[b]);
      }
    }
  }

  /** The offset of stop k of the first n segments: sample j of segment q. */
  lemma BlendedOffsetAt(ps: seq<ControlPoint>, n: nat, k: nat, gradient: E.GradientType,
                        policy: E.GradientInterpolationHSLHSV, stops: seq<GradientStop>) returns (q: nat, j: nat)
    requires n < |ps| && k < 11 * n && AllConvertible(ps, gradient)
    requires stops == BlendedStops(ps, n, gradient, policy)
    ensures j < 11 && k == StopIndex(q, j) && q < n
    ensures k < |stops| && stops[k].offset == SegmentOffset(ps[q], ps[q + 1], j)
  {
    q, j := SplitIndex(k);
    BlendedStopAt(ps, n, q, j, gradient, policy);
  }

  /** Two stops of the HSV / HSL preview of sorted points, in index order,
      are in offset order. */
  lemma BlendedOffsetsOrdered(ps: seq<ControlPoint>, a: nat, b: nat, gradient: E.GradientType,
                              policy: E.GradientInterpolationHSLHSV)
    requires |ps| > 0 && AllConvertible(ps, gradient) && SortedBy(ps, PositionOf)
    requires a < b < 11 * (|ps| - 1)
    ensures var stops := BlendedStops(ps, |ps| - 1, gradient, policy);
      stops[a].offset <= stops[b].offset
  {
    var stops := BlendedStops(ps, |ps| - 1, gradient, policy);
    var qa, ja := BlendedOffsetAt(ps, |ps| - 1, a, gradient, policy, stops);
    var qb, jb := BlendedOffsetAt(ps, |ps| - 1, b, gradient, policy, stops);
    StopIndexOrder(qa, ja, qb, jb, |ps| - 1);
    SampleOffsetsOrdered(ps, qa, ja, qb, jb);
  }

  /** On sorted points, sample ja of segment qa lies at or before sample jb
      of a later segment qb, or of the same one when ja <= jb. */
  lemma SampleOffsetsOrdered(ps: seq<ControlPoint>, qa: nat, ja: nat, qb: nat, jb: nat)
    requires SortedBy(ps, PositionOf) && qa <= qb && qb + 1 < |ps| && ja < 11 && jb < 11
    requires qa == qb ==> ja <= jb
    ensures SegmentOffset(ps[qa], ps[qa + 1], ja) <= SegmentOffset(ps[qb], ps[qb + 1], jb)
  {
    SegmentOffsetOnSegment(ps[qa], ps[qa + 1], ja);
    SegmentOffsetOnSegment(ps[qb], ps[qb + 1], jb);
    if qa < qb {
      assert PositionOf(ps[qa]) <= PositionOf(ps[qa + 1]) <= PositionOf(ps[qb]) <= PositionOf(ps[qb + 1]);
    } else {
      assert PositionOf(ps[qa]) <= PositionOf(ps[qa + 1]);
      OffsetStepsForward(ps[qa], ps[qa + 1], ja, jb);
    }
  }

  /** Within one segment from a lower to a higher point, later samples lie further right. */
  lemma OffsetStepsForward(p1: ControlPoint, p2: ControlPoint, j1: nat, j2: nat)
    requires p1.position <= p2.position && j1 <= j2
    ensures SegmentOffset(p1, p2, j1) <= SegmentOffset(p1, p2, j2)
  {
    var d := p2.position - p1.position;
    var t1 := j1 as real / 10.0;
    var t2 := j2 as real / 10.0;
    NonNegativeScale(d, t2 - t1);
    assert d * t2 - d * t1 == d * (t2 - t1);
  }

  /** Reverse's map on values: every position p becomes 1 - p, colours stay. */
  function Mirrored(vs: seq<ControlPoint>): (ws: seq<ControlPoint>)
    ensures |ws| == |vs|
    ensures forall k :: 0 <= k < |vs| ==> ws[k] == ControlPoint(1.0 - vs[k].position, vs[k].color)
  {
    seq(|vs|, k requires 0 <= k < |vs| => ControlPoint(1.0 - vs[k].position, vs[k].color))
  }

  /** Every position lies in [0, 1]. */
  predicate AllPositionsInUnit(vs: seq<ControlPoint>)
  {
    forall k :: 0 <= k < |vs| ==> 0.0 <= vs[k].position <= 1.0
  }

  /** Reversing twice restores the positions, and positions in [0, 1] stay there. */
  lemma MirroredTwice(vs: seq<ControlPoint>)
    ensures Mirrored(Mirrored(vs)) == vs
    ensures AllPositionsInUnit(vs) ==> AllPositionsInUnit(Mirrored(vs))
  {
    assert forall k :: 0 <= k < |vs| ==> Mirrored(Mirrored(vs))[k] == vs[k];
  }

  /** Distribute's map on the values in position order: the k-th of n moves
      to k / (n - 1) and keeps its colour. */
  function Distributed(vs: seq<ControlPoint>): (ws: seq<ControlPoint>)
    requires |vs| >= 2
    ensures |ws| == |vs|
    ensures forall k :: 0 <= k < |vs| ==> ws[k].color == vs[k].color
  {
    seq(|vs|, k requires 0 <= k < |vs| => ControlPoint(k as real / (|vs| - 1) as real, vs[k].color))
  }

  /** After Distribute the first point sits at 0, the last at 1, and the
      positions climb in equal steps of 1 / (n - 1), so they stay in [0, 1]
      and in the same order as before. */
  lemma DistributedEvenly(vs: seq<ControlPoint>)
    requires |vs| >= 2
    ensures var ws := Distributed(vs);
      ws[0].position == 0.0 && ws[|ws| - 1].position == 1.0
      && (forall k :: 0 <= k < |ws| - 1 ==> ws[k + 1].position - ws[k].position == 1.0 / (|vs| - 1) as real)
      && (forall a, b :: 0 <= a < b < |ws| ==> ws[a].position < ws[b].position)
      && AllPositionsInUnit(ws)
  {
    var ws := Distributed(vs);
    var n := (|vs| - 1) as real;
    forall k | 0 <= k < |ws| - 1
      ensures ws[k + 1].position - ws[k].position == 1.0 / n
    {
      QuotientStep(k as real, n);
    }
    forall a, b | 0 <= a < b < |ws| ensures ws[a].position < ws[b].position {
      QuotientIncreasing(a as real, b as real, n);
    }
    forall k | 0 <= k < |ws| ensures 0.0 <= ws[k].position <= 1.0 {
      QuotientInUnit(k as real, n);
    }
  }

  /** Consecutive numerators over the same denominator differ by 1 / n. */
  lemma QuotientStep(k: real, n: real)
    requires n > 0.0
    ensures (k + 1.0) / n - k / n == 1.0 / n
  {
  }

  /** Division by a positive number keeps the order. */
  lemma QuotientIncreasing(a: real, b: real, n: real)
    requires a < b && n > 0.0
    ensures a / n < b / n
  {
    assert b / n - a / n == (b - a) / n;
  }

  /** Collection<T>.IndexOf: the first index holding x. */
  function IndexOf<T(==)>(s: seq<T>, x: T): (i: nat)
    requires x in s
    ensures i < |s| && s[i] == x && x !in s[..i]
  {
    if s[0] == x then 0
    else
      assert x in s[1..];
      1 + IndexOf(s[1..], x)
  }

  /** The loop of Distribute: the k-th point moves to k / (n - 1). */
  method PlaceEvenly(sorted: seq<GradientPoint>)
    requires |sorted| >= 2 && Distinct(sorted)
    modifies sorted`position
    ensures Snapshot(sorted) == Distributed(old(Snapshot(sorted)))
    ensures forall k :: 0 <= k < |sorted| ==> sorted[k].position == k as real / (|sorted| - 1) as real
  {
    var n := |sorted|;
    var i := 0;
    while i < n
      invariant 0 <= i <= n
      invariant forall k :: 0 <= k < i ==> sorted[k].position == k as real / (n - 1) as real
      invariant forall k :: i <= k < n ==> sorted[k].position == old(sorted[k].position)
      invariant forall k :: 0 <= k < n ==> sorted[k].color == old(sorted[k].color)
    {
      sorted[i].SetPosition(i as real / (n - 1) as real);
      i := i + 1;
    }
    assert forall k :: 0 <= k < n ==> Snapshot(sorted)[k] == Distributed(old(Snapshot(sorted)))[k];
  }

  /** Distribute over the points in position order: a point that lay strictly
      before another still does, and colours and commands stay. */
  method SpreadEvenly(sorted: seq<GradientPoint>, ghost all: seq<GradientPoint>)
    requires |sorted| >= 2 && Distinct(sorted) && multiset(sorted) == multiset(all)
    requires PositionsSorted(sorted)
    modifies sorted`position
    ensures Snapshot(sorted) == Distributed(old(Snapshot(sorted)))
    ensures forall k :: 0 <= k < |sorted| ==> sorted[k].position == k as real / (|sorted| - 1) as real
    ensures forall p, q :: p in all && q in all && old(p.position) < old(q.position) ==> p.position < q.position
    ensures forall p :: p in all ==>
      p.color == old(p.color) && p.beginEditCommand == old(p.beginEditCommand) && p.endEditCommand == old(p.endEditCommand)
  {
    ghost var before := Snapshot(sorted);
    assert forall i, j :: 0 <= i < j < |before| ==> before[i].position <= before[j].position;
    PlaceEvenly(sorted);
    forall p, q | p in all && q in all && old(p.position) < old(q.position)
      ensures p.position < q.position
    {
      assert p in multiset(sorted) && q in multiset(sorted);
      var a, b := IndexOf(sorted, p), IndexOf(sorted, q);
      assert before[a].position < before[b].position;
      DistributedKeepsOrder(before, a, b);
      assert Snapshot(sorted)[a].position < Snapshot(sorted)[b].position;
    }
  }

  /** Distributing values sorted by position: a value strictly before another
      still lies strictly before it. */
  lemma DistributedKeepsOrder(vs: seq<ControlPoint>, a: int, b: int)
    requires |vs| >= 2 && 0 <= a < |vs| && 0 <= b < |vs|
    requires forall i, j :: 0 <= i < j < |vs| ==> vs[i].position <= vs[j].position
    requires vs[a].position < vs[b].position
    ensures Distributed(vs)[a].position < Distributed(vs)[b].position
  {
    assert a < b;
    DistributedEvenly(vs);
  }

  /** The positions of a sequence of points never decrease along it. */
  predicate PositionsSorted(ps: seq<GradientPoint>)
    reads ps
  {
    forall i, j :: 0 <= i < j < |ps| ==> ps[i].position <= ps[j].position
  }

  /** The loop of Reverse: every position p becomes 1 - p. */
  method MirrorPositions(ps: seq<GradientPoint>)
    requires Distinct(ps)
    modifies ps`position
    ensures Snapshot(ps) == Mirrored(old(Snapshot(ps)))
  {
    var i := 0;
    while i < |ps|
      invariant 0 <= i <= |ps|
      invariant forall k :: 0 <= k < i ==> ps[k].position == 1.0 - old(ps[k].position)
      invariant forall k :: i <= k < |ps| ==> ps[k].position == old(ps[k].position)
      invariant forall k :: 0 <= k < |ps| ==> ps[k].color == old(ps[k].color)
    {
      ps[i].SetPosition(1.0 - ps[i].position);
      i := i + 1;
    }
    assert forall k :: 0 <= k < |ps| ==> Snapshot(ps)[k] == Mirrored(old(Snapshot(ps)))[k];
  }

  /** The copy constructor of GradientPoint applied to every point in order:
      fresh objects holding the same values and commands. */
  method CopyPoints(src: seq<GradientPoint>) returns (dst: seq<GradientPoint>)
    ensures |dst| == |src| && Snapshot(dst) == Snapshot(src) && Distinct(dst)
    ensures forall k :: 0 <= k < |dst| ==>
      fresh(dst[k]) && dst[k].beginEditCommand == src[k].beginEditCommand && dst[k].endEditCommand == src[k].endEditCommand
  {
    dst := [];
    var i := 0;
    while i < |src|
      invariant 0 <= i <= |src| && |dst| == i && Distinct(dst)
      invariant forall k :: 0 <= k < i ==>
        fresh(dst[k]) && dst[k].Value() == src[k].Value()
        && dst[k].beginEditCommand == src[k].beginEditCommand && dst[k].endEditCommand == src[k].endEditCommand
    {
      var copy := new GradientPoint.Copy(src[i]);
      dst := dst + [copy];
      i := i + 1;
    }
  }

  /** A new immutable point list over fresh copies of the given points. */
  method NewPointList(src: seq<GradientPoint>) returns (list: E.PointList)
    ensures fresh(list) && Snapshot(list.items) == old(Snapshot(src))
    ensures forall p :: p in list.items ==> fresh(p)
  {
    var copies := CopyPoints(src);
    SnapshotFramed(src);
    list := new E.PointList(copies);
  }

  /** Every point forwards to the given edit commands and has a colour that
      can go through FromColor in the given colour model. */
  ghost predicate Wired(ps: seq<GradientPoint>, begin: EditCommand, end: EditCommand, mode: HsvHsl.ColorSpace)
    reads ps
  {
    forall p :: p in ps ==> p.beginEditCommand == begin && p.endEditCommand == end && Convertible(p.color, mode)
  }

  /** The points taken in position order get evenly spaced positions; colours
      and commands stay. The sorted values become evenly spaced, and a point
      that lay before another still lies before it (SpreadEvenly states which
      point gets which position). */
  method DistributeSorted(ps: seq<GradientPoint>, ghost begin: EditCommand, ghost end: EditCommand, ghost mode: HsvHsl.ColorSpace)
    requires Distinct(ps) && |ps| > 2 && Wired(ps, begin, end, mode)
    modifies ps`position
    ensures SortBy(Snapshot(ps), PositionOf) == Distributed(old(SortBy(Snapshot(ps), PositionOf)))
    ensures forall p, q :: p in ps && q in ps && old(p.position) < old(q.position) ==> p.position < q.position
    ensures forall p :: p in ps ==>
      p.color == old(p.color) && p.beginEditCommand == old(p.beginEditCommand) && p.endEditCommand == old(p.endEditCommand)
    ensures Wired(ps, begin, end, mode)
  {
    var sorted := SortedRefs(ps);
    assert Snapshot(sorted) == SortBy(Snapshot(ps), PositionOf) by { SortedRefsSnapshot(ps); }
    assert Distinct(sorted) by { PermutationKeepsDistinct(sorted, ps); }
    SpreadEvenly(sorted, ps);
    assert Snapshot(sorted) == SortBy(Snapshot(ps), PositionOf) by {
      EvenlySpacedIsSorted(ps, sorted);
    }
  }

  /** Points at k / (n - 1) in the order of a permutation of ps are that
      permutation's position order, and their values are the sorted values. */
  lemma EvenlySpacedIsSorted(ps: seq<GradientPoint>, sorted: seq<GradientPoint>)
    requires |sorted| >= 2 && multiset(sorted) == multiset(ps)
    requires forall k :: 0 <= k < |sorted| ==> sorted[k].position == k as real / (|sorted| - 1) as real
    ensures SortedRefs(ps) == sorted
    ensures Snapshot(sorted) == SortBy(Snapshot(ps), PositionOf)
  {
    forall i, j | 0 <= i < j < |sorted| ensures sorted[i].position < sorted[j].position {
      QuotientIncreasing(i as real, j as real, (|sorted| - 1) as real);
    }
    SortedRefsOfStrictOrder(ps, sorted);
    SortedRefsSnapshot(ps);
  }

  /** The loops of UpdatePreview: for HSV / HSL, eleven samples of every
      segment between neighbours in position order; for RGB, one stop per
      point. */
  method BuildStops(sortedPoints: seq<GradientPoint>, gradient: E.GradientType,
                    policy: E.GradientInterpolationHSLHSV, ghost vs: seq<ControlPoint>)
    returns (newStops: seq<GradientStop>)
    requires |sortedPoints| > 0 && vs == Snapshot(sortedPoints) && AllConvertible(vs, gradient)
    ensures newStops == PreviewStops(vs, gradient, policy)
  {
    if gradient != E.RGB {
      newStops := BlendSegments(sortedPoints, gradient, policy, vs);
    } else {
      newStops := [];
      var i := 0;
      while i < |sortedPoints|
        invariant 0 <= i <= |sortedPoints|
        invariant newStops == PointStops(vs, i)
      {
        var p := sortedPoints[i];
        newStops := newStops + [GradientStop(p.color, p.position)];
        i := i + 1;
      }
    }
  }

  /** The outer HSV / HSL loop of UpdatePreview: every segment between
      neighbours in position order, in turn. */
  method BlendSegments(sortedPoints: seq<GradientPoint>, gradient: E.GradientType,
                       policy: E.GradientInterpolationHSLHSV, ghost vs: seq<ControlPoint>)
    returns (newStops: seq<GradientStop>)
    requires |sortedPoints| > 0 && vs == Snapshot(sortedPoints) && AllConvertible(vs, gradient)
    ensures newStops == BlendedStops(vs, |vs| - 1, gradient, policy)
  {
    newStops := [];
    var i := 0;
    while i < |sortedPoints| - 1
      invariant 0 <= i <= |sortedPoints| - 1
      invariant newStops == BlendedStops(vs, i, gradient, policy)
    {
      newStops := AppendSegment(sortedPoints, i, gradient, policy, newStops, vs);
      i := i + 1;
    }
  }

  /** The inner loop of UpdatePreview: the samples j = 0 .. 10 of segment i. */
  method AppendSegment(sortedPoints: seq<GradientPoint>, i: nat, gradient: E.GradientType,
                       policy: E.GradientInterpolationHSLHSV, stops: seq<GradientStop>,
                       ghost vs: seq<ControlPoint>) returns (newStops: seq<GradientStop>)
    requires i + 1 < |sortedPoints| && vs == Snapshot(sortedPoints) && AllConvertible(vs, gradient)
    requires stops == BlendedStops(vs, i, gradient, policy)
    ensures newStops == BlendedStops(vs, i + 1, gradient, policy)
  {
    var p1 := sortedPoints[i];
    var p2 := sortedPoints[i + 1];
    assert p1.Value() == vs[i] && p2.Value() == vs[i + 1];
    var steps := 10;
    newStops := stops;
    var j := 0;
    while j <= steps
      invariant 0 <= j <= steps + 1
      invariant newStops == stops + SegmentStops(vs[i], vs[i + 1], j, gradient, policy)
    {
      var t := SampleFraction(j);
      var globalPos := Lerp(p1.position, p2.position, t);
      var c := PreviewColor(p1.color, p2.color, t, gradient, policy);
      ghost var prefix := SegmentStops(vs[i], vs[i + 1], j, gradient, policy);
      assert p1.color == vs[i].color && p2.color == vs[i + 1].color;
      assert p1.position == vs[i].position && p2.position == vs[i + 1].position;
      assert c == PreviewColor(vs[i].color, vs[i + 1].color, SampleFraction(j), gradient, policy);
      SegmentStopIs(vs[i], vs[i + 1], j, gradient, policy, c, globalPos);
      SegmentStopsGrow(vs[i], vs[i + 1], j, gradient, policy);
      assert stops + prefix + [GradientStop(c, globalPos)] == stops + (prefix + [GradientStop(c, globalPos)]);
      newStops := newStops + [GradientStop(c, globalPos)];
      j := j + 1;
    }
  }

  /** Grey has equal channels, so every colour model can take it. */
  lemma GrayConvertible(mode: HsvHsl.ColorSpace)
    ensures Convertible(Gray, mode)
  {
    assert HsvHsl.MaxOf(Gray) - HsvHsl.MinOf(Gray) == 0.0;
  }

  /** A point not yet in the list keeps it free of repeats when appended. */
  lemma AppendFresh(before: seq<GradientPoint>, p: GradientPoint)
    requires Distinct(before) && p !in before
    ensures Distinct(before + [p])
    ensures forall q :: q in before + [p] ==> q in before || q == p
  {
  }

  /** A new GradientPoint with the given position and colour, and its BeginEditCommand and
      EndEditCommand set. */
  method WiredPoint(position: real, color: Color, begin: EditCommand, end: EditCommand) returns (p: GradientPoint)
    ensures fresh(p) && p.Value() == ControlPoint(position, color)
    ensures p.beginEditCommand == begin && p.endEditCommand == end
  {
    p := new GradientPoint(position, color);
    p.beginEditCommand := begin;
    p.endEditCommand := end;
  }

  /** The editor of properties[0]'s effect: it creates its two item
      commands and loads the effect's points. */
  method Open(effectItem: E.ColorRampEffect, otherEffects: seq<E.ColorRampEffect>) returns (vm: GradientEditorViewModel)
    requires forall p :: p in effectItem.points.items ==>
      Convertible(p.color, ModeOf(effectItem.gradientCalculationType))
    modifies effectItem`points, otherEffects`points
    ensures fresh(vm) && vm.effectItem == effectItem && vm.otherEffects == otherEffects
    ensures Snapshot(vm.points) == old(Snapshot(effectItem.points.items))
    ensures vm.Valid() && vm.Synced() && vm.PreviewCurrent() && vm.editEvents == []
  {
    vm := new GradientEditorViewModel.Init(effectItem, otherEffects);
    SnapshotFramed(effectItem.points.items);
    vm.LoadFromModel();
  }

  /** The editor: the effect it edits, the other selected effects that
      receive the same list, its own point objects and the preview brush. */
  class GradientEditorViewModel {
    const effectItem: E.ColorRampEffect
    /** The owners of properties[1..] that are ColorRampEffects (multiple selection). */
    const otherEffects: seq<E.ColorRampEffect>
    const itemBeginEditCommand: EditCommand
    const itemEndEditCommand: EditCommand

    /** The Points collection. */
    var points: seq<GradientPoint>
    /** The GradientStops of the preview brush. */
    var gradientStops: seq<GradientStop>
    /** The BeginEdit / EndEdit events raised so far, oldest first. */
    var editEvents: seq<EditEvent>

    /** Each point object occurs once and forwards to the editor's commands. */
    ghost predicate Valid()
      reads this`points, points
    {
      Distinct(points)
      && forall p :: p in points ==> p.beginEditCommand == itemBeginEditCommand && p.endEditCommand == itemEndEditCommand
    }

    /** Every point colour can go through FromColor in the effect's colour model. */
    predicate PointsConvertible()
      reads this`points, points, effectItem`gradientCalculationType
    {
      forall p :: p in points ==> Convertible(p.color, ModeOf(effectItem.gradientCalculationType))
    }

    /** The values the model receives: the points in position order. */
    function SortedValues(): (vs: seq<ControlPoint>)
      reads this`points, points
      ensures |vs| == |points| && SortedBy(vs, PositionOf)
    {
      SortBy(Snapshot(points), PositionOf)
    }

    lemma SortedValuesConvertible()
      requires PointsConvertible()
      ensures AllConvertible(SortedValues(), effectItem.gradientCalculationType)
    {
      var vs := SortedValues();
      forall k | 0 <= k < |vs| ensures Convertible(vs[k].color, ModeOf(effectItem.gradientCalculationType)) {
        assert vs[k] in multiset(Snapshot(points));
        var i :| 0 <= i < |points| && Snapshot(points)[i] == vs[k];
        assert points[i] in points;
      }
    }

    /** The preview of the current points and settings. */
    function Preview(): seq<GradientStop>
      reads this`points, points, effectItem`gradientCalculationType, effectItem`gradientInterpolationHSLHSVType
      requires PointsConvertible() && |points| > 0
    {
      SortedValuesConvertible();
      PreviewStops(SortedValues(), effectItem.gradientCalculationType, effectItem.gradientInterpolationHSLHSVType)
    }

    /** The preview depends on the points and the effect's settings only. */
    twostate lemma PreviewFramed()
      requires old(points) == points && unchanged(points)
      requires unchanged(effectItem`gradientCalculationType, effectItem`gradientInterpolationHSLHSVType)
      ensures Valid() == old(Valid()) && Snapshot(points) == old(Snapshot(points))
      ensures SortedValues() == old(SortedValues())
      ensures PointsConvertible() == old(PointsConvertible())
      ensures old(PointsConvertible()) && |points| > 0 ==> Preview() == old(Preview())
    {
    }

    /** The brush shows the current points (an empty list keeps the old brush). */
    ghost predicate PreviewCurrent()
      reads this`points, points, this`gradientStops
      reads effectItem`gradientCalculationType, effectItem`gradientInterpolationHSLHSVType
    {
      PointsConvertible() && (|points| > 0 ==> gradientStops == Preview())
    }

    /** The model holds copies of the points' values in position order, the
        other selected effects hold the same list, and no model point is one
        of the editor's objects. */
    ghost predicate Synced()
      reads this`points, points, effectItem`points, effectItem.points.items, otherEffects`points
    {
      Snapshot(effectItem.points.items) == SortedValues()
      && (forall e :: e in otherEffects ==> e.points == effectItem.points)
      && (forall p :: p in effectItem.points.items ==> p !in points)
    }

    /** A write that touches neither the points, the brush nor any effect
        keeps the editor's invariants. */
    twostate lemma EditorFramed()
      requires old(points) == points && unchanged(points) && old(gradientStops) == gradientStops
      requires unchanged(effectItem`gradientCalculationType, effectItem`gradientInterpolationHSLHSVType)
      requires old(effectItem.points) == effectItem.points && unchanged(effectItem.points.items)
      requires forall e :: e in otherEffects ==> old(e.points) == e.points
      ensures Valid() == old(Valid()) && Synced() == old(Synced()) && PreviewCurrent() == old(PreviewCurrent())
      ensures Snapshot(points) == old(Snapshot(points))
    {
      PreviewFramed();
      SyncedFramed();
    }

    /** Moving points keeps their colours and commands, and with them the
        editor's invariants. */
    twostate lemma PositionsMoved()
      requires old(points) == points
      requires forall p :: p in points ==>
        p.color == old(p.color) && p.beginEditCommand == old(p.beginEditCommand) && p.endEditCommand == old(p.endEditCommand)
      requires unchanged(effectItem`gradientCalculationType)
      ensures old(Valid()) ==> Valid()
      ensures old(PointsConvertible()) ==> PointsConvertible()
    {
    }

    /** Synced depends on the points, the effects' lists and the model's points only. */
    twostate lemma SyncedFramed()
      requires old(points) == points && unchanged(points)
      requires old(effectItem.points) == effectItem.points && unchanged(effectItem.points.items)
      requires forall e :: e in otherEffects ==> old(e.points) == e.points
      ensures Synced() == old(Synced())
    {
    }

    /** Redrawing the brush changes neither the points nor the models. */
    twostate lemma BrushRedrawn()
      requires old(points) == points && unchanged(points)
      requires old(effectItem.points) == effectItem.points && unchanged(effectItem.points.items)
      requires forall e :: e in otherEffects ==> old(e.points) == e.points
      ensures Synced() == old(Synced()) && Valid() == old(Valid())
      ensures Snapshot(points) == old(Snapshot(points)) && SortedValues() == old(SortedValues())
    {
    }

    /** The editor of properties[0]'s effect, before it loads the points. */
    constructor Init(effectItem: E.ColorRampEffect, otherEffects: seq<E.ColorRampEffect>)
      ensures this.effectItem == effectItem && this.otherEffects == otherEffects
      ensures fresh(itemBeginEditCommand) && fresh(itemEndEditCommand)
      ensures points == [] && gradientStops == [] && editEvents == []
    {
      this.effectItem := effectItem;
      this.otherEffects := otherEffects;
      itemBeginEditCommand := new EditCommand();
      itemEndEditCommand := new EditCommand();
      points := [];
      gradientStops := [];
      editEvents := [];
    }

    /** LoadFromModel: the editor's points become fresh copies of the model's
        points, wired to the editor's commands, in the model's order. Clearing
        and refilling the collection syncs back to the model, so afterwards
        the model holds them in position order; a model already in order
        keeps its values. */
    method LoadFromModel()
      requires forall p :: p in effectItem.points.items ==>
        Convertible(p.color, ModeOf(effectItem.gradientCalculationType))
      modifies this`points, this`gradientStops, effectItem`points, otherEffects`points
      ensures forall p :: p in points ==> fresh(p)
      ensures Snapshot(points) == old(Snapshot(effectItem.points.items))
      ensures Valid() && Synced() && PreviewCurrent()
      ensures SortedBy(old(Snapshot(effectItem.points.items)), PositionOf) ==>
        Snapshot(effectItem.points.items) == old(Snapshot(effectItem.points.items))
    {
      var loaded := LoadCopies(effectItem.points.items);
      TakePoints(loaded);
      SyncToModel();
      if SortedBy(Snapshot(points), PositionOf) {
        SortBySorted(Snapshot(points), PositionOf);
      }
    }

    /** The loop of LoadFromModel: a fresh copy of every model point, wired
        to the editor's commands, in the model's order. */
    method LoadCopies(modelPoints: seq<GradientPoint>) returns (loaded: seq<GradientPoint>)
      requires forall p :: p in modelPoints ==> Convertible(p.color, ModeOf(effectItem.gradientCalculationType))
      ensures Snapshot(loaded) == old(Snapshot(modelPoints)) && Distinct(loaded)
      ensures forall p :: p in loaded ==>
        fresh(p) && p.beginEditCommand == itemBeginEditCommand && p.endEditCommand == itemEndEditCommand
        && Convertible(p.color, ModeOf(effectItem.gradientCalculationType))
    {
      loaded := [];
      var i := 0;
      while i < |modelPoints|
        invariant 0 <= i <= |modelPoints| && |loaded| == i && Distinct(loaded)
        invariant forall k :: 0 <= k < i ==>
          fresh(loaded[k]) && loaded[k].Value() == modelPoints[k].Value()
          && loaded[k].beginEditCommand == itemBeginEditCommand && loaded[k].endEditCommand == itemEndEditCommand
          && Convertible(loaded[k].color, ModeOf(effectItem.gradientCalculationType))
      {
        var vmPoint := new GradientPoint.Copy(modelPoints[i]);
        vmPoint.beginEditCommand := itemBeginEditCommand;
        vmPoint.endEditCommand := itemEndEditCommand;
        loaded := loaded + [vmPoint];
        i := i + 1;
      }
      SnapshotFramed(modelPoints);
    }

    /** Points.Clear followed by adding the loaded points. */
    method TakePoints(loaded: seq<GradientPoint>)
      requires Distinct(loaded)
      requires forall p :: p in loaded ==>
        p.beginEditCommand == itemBeginEditCommand && p.endEditCommand == itemEndEditCommand
        && Convertible(p.color, ModeOf(effectItem.gradientCalculationType))
      modifies this`points
      ensures points == loaded && Snapshot(points) == old(Snapshot(loaded))
      ensures Valid() && PointsConvertible()
    {
      points := loaded;
      SnapshotFramed(loaded);
    }

    /** The CanExecute of RemoveCommand: a point parameter that is in the
        collection, and more than two points. */
    predicate CanExecuteRemove(o: Option<GradientPoint>)
      reads this`points
    {
      o.Some? && o.value in points && |points| > 2
    }

    /** The CanRemove property: true exactly when RemoveCommand is enabled for
        every point of a non-empty collection. */
    function CanRemove(): (b: bool)
      reads this`points
      ensures b <==> points != [] && forall p :: p in points ==> CanExecuteRemove(Some(p))
      ensures b <==> |points| > 2
    {
      assert points != [] ==> CanExecuteRemove(Some(points[0])) == (|points| > 2);
      |points| > 2
    }

    /** The CanDistribute property: enabled exactly when removing is. */
    function CanDistribute(): (b: bool)
      reads this`points
      ensures b <==> CanRemove()
    {
      |points| > 2
    }

    /** The CanReverse property: enabled whenever removing is, and in addition
        for exactly two points. */
    function CanReverse(): (b: bool)
      reads this`points
      ensures CanRemove() ==> b
      ensures b && !CanRemove() <==> |points| == 2
      ensures b <==> |points| >= 2
    {
      |points| >= 2
    }

    /** BeginEdit?.Invoke / EndEdit?.Invoke: the event is recorded and
        nothing the editor's invariants read changes. */
    method Raise(e: EditEvent)
      modifies this`editEvents
      ensures editEvents == old(editEvents) + [e]
      ensures Valid() == old(Valid()) && Synced() == old(Synced()) && PreviewCurrent() == old(PreviewCurrent())
      ensures PointsConvertible() == old(PointsConvertible())
      ensures Snapshot(points) == old(Snapshot(points)) && SortedValues() == old(SortedValues())
      ensures forall p :: p in points ==> p.position == old(p.position)
    {
      editEvents := editEvents + [e];
      EditorFramed();
      PreviewFramed();
    }

    /** AddCommand: a grey point at the given position (0.5 when the
        parameter is not a double), wired to the editor's commands, appended
        between a BeginEdit and an EndEdit; the model then receives the list. */
    method Add(o: Option<real>)
      requires Valid() && PointsConvertible()
      modifies this`points, this`editEvents, this`gradientStops, effectItem`points, otherEffects`points
      ensures editEvents == old(editEvents) + [BeginEdit, EndEdit]
      ensures |points| == |old(points)| + 1 && points[..|old(points)|] == old(points) && fresh(points[|old(points)|])
      ensures Snapshot(points) == old(Snapshot(points)) + [ControlPoint(if o.Some? then o.value else 0.5, Gray)]
      ensures Valid() && Synced() && PreviewCurrent()
    {
      Raise(BeginEdit);
      var initialPos := if o.Some? then o.value else 0.5;
      AppendNew(initialPos);
      SyncToModel();
      Raise(EndEdit);
      EditBracket(old(editEvents));
    }

    /** The body of AddCommand between the events: a new grey point wired to
        the editor's commands goes to the end of the collection. */
    method AppendNew(position: real)
      requires Valid() && PointsConvertible()
      modifies this`points
      ensures |points| == |old(points)| + 1 && points[..|old(points)|] == old(points) && fresh(points[|old(points)|])
      ensures Snapshot(points) == old(Snapshot(points)) + [ControlPoint(position, Gray)]
      ensures Valid() && PointsConvertible()
    {
      var newPoint := WiredPoint(position, Gray, itemBeginEditCommand, itemEndEditCommand);
      ghost var before := points;
      SnapshotFramed(before);
      GrayConvertible(ModeOf(effectItem.gradientCalculationType));
      AppendFresh(before, newPoint);
      points := points + [newPoint];
      SnapshotConcat(before, [newPoint]);
      assert points[..|before|] == before;
      assert Snapshot([newPoint]) == [ControlPoint(position, Gray)];
    }

    /** RemoveCommand: for a point parameter, BeginEdit, the first occurrence
        of that point removed from the collection (nothing when it is not
        there), EndEdit; anything else is ignored. A removal is passed on to
        the model. */
    method Remove(o: Option<GradientPoint>)
      requires Valid() && PointsConvertible()
      modifies this`points, this`editEvents, this`gradientStops, effectItem`points, otherEffects`points
      ensures o.None? ==> editEvents == old(editEvents)
      ensures o.Some? ==> editEvents == old(editEvents) + [BeginEdit, EndEdit]
      ensures !(o.Some? && o.value in old(points)) ==>
        points == old(points) && gradientStops == old(gradientStops)
        && effectItem.points == old(effectItem.points)
        && forall e :: e in otherEffects ==> e.points == old(e.points)
      ensures o.Some? && o.value in old(points) ==>
        var i := IndexOf(old(points), o.value);
        points == old(points)[..i] + old(points)[i + 1..] && o.value !in points
        && Valid() && Synced() && PreviewCurrent()
      ensures old(CanExecuteRemove(o)) ==> |points| == |old(points)| - 1 && |points| >= 2
    {
      if o.Some? {
        Raise(BeginEdit);
        if o.value in points {
          RemoveAt(IndexOf(points, o.value));
          SyncToModel();
        }
        Raise(EndEdit);
        EditBracket(old(editEvents));
      }
    }

    /** Points.Remove on a point that is present: its one occurrence goes. */
    method RemoveAt(i: nat)
      requires Valid() && PointsConvertible() && i < |points|
      modifies this`points
      ensures points == old(points)[..i] + old(points)[i + 1..] && old(points)[i] !in points
      ensures Valid() && PointsConvertible()
    {
      ghost var before := points;
      points := points[..i] + points[i + 1..];
      assert forall k :: 0 <= k < |points| ==> points[k] == before[if k < i then k else k + 1];
    }

    /** DistributeCommand: BeginEdit, the points in position order moved to
        k / (n - 1), the list passed to the model, EndEdit. The command is
        only enabled for more than two points. */
    method Distribute()
      requires Valid() && PointsConvertible() && CanDistribute()
      modifies this`editEvents, this`gradientStops, effectItem`points, otherEffects`points, points`position
      ensures points == old(points) && editEvents == old(editEvents) + [BeginEdit, EndEdit]
      ensures SortedValues() == Distributed(old(SortedValues()))
      ensures forall p, q :: p in points && q in points && old(p.position) < old(q.position) ==> p.position < q.position
      ensures Valid() && Synced() && PreviewCurrent()
    {
      Raise(BeginEdit);
      DistributePositions();
      SyncToModel();
      Raise(EndEdit);
      EditBracket(old(editEvents));
    }

    /** The body of DistributeCommand between the events: the points taken in
        position order get the positions 0, 1 / (n - 1), ..., 1. */
    method DistributePositions()
      requires Valid() && PointsConvertible() && |points| > 2
      modifies points`position
      ensures SortedValues() == Distributed(old(SortedValues()))
      ensures forall p, q :: p in points && q in points && old(p.position) < old(q.position) ==> p.position < q.position
      ensures Valid() && PointsConvertible()
    {
      DistributeSorted(points, itemBeginEditCommand, itemEndEditCommand, ModeOf(effectItem.gradientCalculationType));
    }

    /** ReverseCommand: BeginEdit, every position p replaced by 1 - p in
        collection order, the list passed to the model, EndEdit. */
    method Reverse()
      requires Valid() && PointsConvertible()
      modifies this`editEvents, this`gradientStops, effectItem`points, otherEffects`points, points`position
      ensures points == old(points) && editEvents == old(editEvents) + [BeginEdit, EndEdit]
      ensures Snapshot(points) == Mirrored(old(Snapshot(points)))
      ensures Valid() && Synced() && PreviewCurrent()
    {
      Raise(BeginEdit);
      ReversePositions();
      SyncToModel();
      Raise(EndEdit);
      EditBracket(old(editEvents));
    }

    /** The body of ReverseCommand between the events. */
    method ReversePositions()
      requires Valid() && PointsConvertible()
      modifies points`position
      ensures Snapshot(points) == Mirrored(old(Snapshot(points)))
      ensures Valid() && PointsConvertible()
    {
      MirrorPositions(points);
      PositionsMoved();
    }

    /** SyncToModel: a copy of the points in position order becomes the
        EditorPoints of this effect and of every other selected effect, and
        the preview is rebuilt. */
    method SyncToModel()
      requires PointsConvertible()
      modifies effectItem`points, otherEffects`points, this`gradientStops
      ensures Synced() && PreviewCurrent()
      ensures fresh(effectItem.points)
      ensures |points| == 0 ==> gradientStops == old(gradientStops)
      ensures Valid() == old(Valid()) && Snapshot(points) == old(Snapshot(points))
      ensures SortedValues() == old(SortedValues())
      ensures forall p :: p in points ==> p.position == old(p.position)
    {
      PublishSorted();
      UpdatePreview();
    }

    /** CopyToOtherItems: the write-through of SyncToModel run on demand, so
        every other selected effect holds this editor's points in position
        order. */
    method CopyToOtherItems()
      requires PointsConvertible()
      modifies effectItem`points, otherEffects`points, this`gradientStops
      ensures forall e :: e in otherEffects ==> Snapshot(e.points.items) == SortedValues()
      ensures Synced() && PreviewCurrent()
      ensures Valid() == old(Valid()) && Snapshot(points) == old(Snapshot(points))
    {
      SyncToModel();
    }

    /** The sorted copies go to the model of every selected effect. */
    method PublishSorted()
      modifies effectItem`points, otherEffects`points
      ensures Synced() && fresh(effectItem.points)
      ensures Valid() == old(Valid()) && PointsConvertible() == old(PointsConvertible())
      ensures Snapshot(points) == old(Snapshot(points)) && SortedValues() == old(SortedValues())
    {
      var list := ModelList();
      PreviewFramed();
      Publish(list);
    }

    /** The list the model receives: new copies of the points, in position order. */
    method ModelList() returns (list: E.PointList)
      ensures fresh(list) && Snapshot(list.items) == old(SortedValues())
      ensures forall p :: p in list.items ==> p !in points
    {
      var sorted := SortedRefs(points);
      SortedRefsSnapshot(points);
      list := NewPointList(sorted);
    }

    /** The list becomes the EditorPoints of this effect and of every other
        selected effect. */
    method Publish(list: E.PointList)
      requires Snapshot(list.items) == SortedValues() && forall p :: p in list.items ==> p !in points
      modifies effectItem`points, otherEffects`points
      ensures effectItem.points == list && Synced()
      ensures Valid() == old(Valid()) && PointsConvertible() == old(PointsConvertible())
      ensures Snapshot(points) == old(Snapshot(points)) && SortedValues() == old(SortedValues())
    {
      effectItem.SetEditorPoints(list);
      ShareWithOthers(list);
      SnapshotFramed(list.items);
      PreviewFramed();
    }

    /** The list goes to every other selected effect. */
    method ShareWithOthers(list: E.PointList)
      modifies otherEffects`points
      ensures forall e :: e in otherEffects ==> e.points == list
    {
      var i := 0;
      while i < |otherEffects|
        invariant 0 <= i <= |otherEffects|
        invariant forall k :: 0 <= k < i ==> otherEffects[k].points == list
      {
        otherEffects[i].SetEditorPoints(list);
        i := i + 1;
      }
    }

    /** UpdatePreview: the brush gets the stops built from the points in
        position order; with no points the brush is left as it was. */
    method UpdatePreview()
      requires PointsConvertible()
      modifies this`gradientStops
      ensures PreviewCurrent()
      ensures |points| == 0 ==> gradientStops == old(gradientStops)
      ensures Synced() == old(Synced()) && Valid() == old(Valid())
      ensures Snapshot(points) == old(Snapshot(points)) && SortedValues() == old(SortedValues())
    {
      BuildPreview();
      BrushRedrawn();
    }

    /** The stops of the brush, built from the points in position order. */
    method BuildPreview()
      requires PointsConvertible()
      modifies this`gradientStops
      ensures PreviewCurrent()
      ensures |points| == 0 ==> gradientStops == old(gradientStops)
    {
      var sortedPoints := SortedRefs(points);
      if |sortedPoints| == 0 {
        return;
      }
      ghost var vs := SortedValues();
      SortedRefsSnapshot(points);
      SortedValuesConvertible();
      var newStops := BuildStops(sortedPoints, effectItem.gradientCalculationType,
                                 effectItem.gradientInterpolationHSLHSVType, vs);
      gradientStops := newStops;
      PreviewFramed();
    }
  }
}

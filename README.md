# ColorRamp in Dafny

ColorRamp is a video effect for YukkuriMovieMaker. It maps one channel of the
source image onto a colour gradient. The gradient is a list of control points,
each a position in [0, 1] and a colour. The effect has these parts:

- **The effect item** (`ColorRampEffect`) owns the point list and the settings:
  - the colour model: RGB, HSL or HSV;
  - the easing: Linear, Ease, Cardinal, BSpline or Constant;
  - the direction around the hue circle: Near, Far, Clockwise or CounterClockwise.
- **The processor** (`ColorRampEffectProcessor`) runs once per frame:
  - It rebuilds the colour matrix that extracts the input channel, but only when the effective channel changed.
  - It rebuilds the four 256-entry lookup tables, but only when the gradient changed.
  - It pushes the mix settings to the custom mix shader.
  - It sets the cross-fade weight from the strength.
- **The gradient editor** (`GradientEditorViewModel`) keeps its own copies of the points and offers four commands: Add, Remove, Distribute and Reverse. After every change it writes a position-ordered copy of its points back to the effect, and to every other selected effect, and redraws its preview brush.
- **The colour conversions** (`HsvHslHelper`), the point class (`GradientPoint`) and two WPF value converters complete the core.

Colours are scRGB quadruples `(a, r, g, b)` over the reals. Each source file
has one Dafny module:

| module | file | models |
|---|---|---|
| `Numeric` | numeric.dfy | Math.Clamp, casts toward zero and the C# remainders |
| `Colors`, `Wrappers` | colors.dfy, wrappers.dfy | Color, Black / White / Gray, Option |
| `Sorting` | sorting.dfy | the stable OrderBy, as an insertion sort on a key |
| `Points` | gradient_point.dfy | GradientPoint, and the values and position order of a list of points |
| `Effect` | effect.dfy | ColorRampEffect, its enums and its two setters over one backing field |
| `HsvHsl` | hsv_hsl.dfy | HsvHslHelper |
| `Interp` | interpolate.dfy | Lerp and InterpolateColor, shared by the processor and the editor |
| `Ramp` | ramp.dfy | the colour of the table at a sample position: bracket, easing, splines |
| `Channel` | channel.dfy | the effective input channel, the channel matrices and the cross-fade weight |
| `Mix` | mix_effect.dfy | the constant buffer of ColorRampMixCustomEffect |
| `Processor` | processor.dfy | ColorRampEffectProcessor, as a class over four arrays |
| `Converters` | converters.dfy | GradientPositionConverter and PercentConverter |
| `Editor` | editor.dfy | GradientEditorViewModel, as a class over its point objects |

Two behaviours of the code are worth knowing before reading the model:

- **Far policy.** For hues 10 and 350 the difference is 340. The test `0 < diff <= 180` (ColorRampEffectProcessor.cs:332) does not fire for it, and neither does `diff <= 0 && diff > -180`. So the code keeps 350 as the target, and the sweep runs 340° through 180. `Interp.HueTarget` states that the Far sweep is always at least 180°.
- **Spline before the first point.** The spline branch does not clamp its local parameter below (ColorRampEffectProcessor.cs:361-363). The processor is modelled as written; the consequence is the row under Findings.

## Model

| member | source | states |
|---|---|---|
| `Numeric.Clamp` | ColorRamp/ColorRampEffectProcessor.cs:382-386 | The result lies in [lo, hi], and a value already inside is returned unchanged. |
| `Numeric.Trunc` | ColorRamp/ColorRampEffectProcessor.cs:339 | The quotient of the float `%` is truncated toward zero: k <= x < k + 1 for x >= 0, and k - 1 < x <= k below 0. |
| `Numeric.Rem360` | ColorRamp/ColorRampEffectProcessor.cs:339 | The float `% 360` keeps the sign of the dividend, lies strictly inside (-360, 360), and differs from x by a truncated multiple of 360. |
| `Numeric.IntRem` | ColorRamp/HsvHslHelper.cs:66 | The int `%` agrees with the mathematical remainder for i >= 0 and lies in (-n, 0] for i < 0. |
| `Sorting.SortBy` | ColorRamp/GradientEditorViewModel.cs:211 | OrderBy by position: the result is sorted by the key and is a permutation of the input. |
| `Sorting.SortByStable` | ColorRamp/GradientEditorViewModel.cs:211 | OrderBy is stable: for every key, the elements with that key leave the sort in the order they entered it. |
| `Sorting.SortBySorted` | ColorRamp/ColorRampEffectProcessor.cs:254 | OrderBy is stable: a list already in order comes back unchanged. |
| `Points.GradientPoint.constructor` | ColorRamp/GradientPoint.cs:20-24 | Holds exactly the given position and colour, and no commands. |
| `Points.GradientPoint.Default` | ColorRamp/GradientPoint.cs:11-26 | The parameterless constructor gives position 0 and the field initialiser's White. |
| `Points.GradientPoint.Copy` | ColorRamp/GradientPoint.cs:29-35 | The copy constructor copies all four properties. |
| `Points.GradientPoint.SetPosition` | ColorRamp/GradientPoint.cs:11 | The Position setter writes the position and no other field. |
| `Points.GradientPoint.SetColor` | ColorRamp/GradientPoint.cs:14 | The Color setter writes the colour and no other field. |
| `Points.SortedRefs` | ColorRamp/GradientEditorViewModel.cs:211 | Ordering points by position yields the same objects, each exactly as often, in non-decreasing position order. |
| `Points.SortedRefsSnapshot` | ColorRamp/GradientEditorViewModel.cs:170 | Ordering the point objects and then reading their values equals ordering the values, because the sort compares positions only. |
| `Points.SortedRefsOfStrictOrder` | ColorRamp/GradientEditorViewModel.cs:89 | When positions are strictly increasing along some ordering of the points, OrderBy produces exactly that ordering. |
| `Effect.ColorRampEffect.constructor` | ColorRamp/ColorRampEffect.cs:67-104 | A new effect holds two fresh points, black at 0 and white at 1, with RGB, Linear, Near and the opacity toggle off. |
| `Effect.ColorRampEffect.EditorPoints` | ColorRamp/ColorRampEffect.cs:56-58 | The EditorPoints getter reads the same backing field as Points. |
| `Effect.ColorRampEffect.SetPoints` | ColorRamp/ColorRampEffect.cs:42-53 | Setting the same list is a no-op. Setting any other list stores it and announces it to the editor exactly once. |
| `Effect.ColorRampEffect.SetEditorPoints` | ColorRamp/ColorRampEffect.cs:56-65 | Stores the list without any announcement. |
| `Effect.ColorRampEffect.GetAnimatables` | ColorRamp/ColorRampEffect.cs:120-125 | Yields every point in list order, then the strength animation. |
| `Effect.SettersShareBackingField` | ColorRamp/ColorRampEffect.cs:42-65 | A write through either setter is visible through both getters. |
| `HsvHsl.Hue` | ColorRamp/HsvHslHelper.cs:21-32 | The hue lies in [0, 360), and is 0 for a grey. |
| `HsvHsl.FromColor` | ColorRamp/HsvHslHelper.cs:16-49 | Alpha is kept and the hue lies in [0, 360). HSV gives V = max, with S = 0 when max = 0. HSL gives L = (max + min) / 2. A grey gets H = S = 0. |
| `HsvHsl.UnitColorHslDefined` | ColorRamp/HsvHslHelper.cs:45 | For a colour with components in [0, 1], the HSL saturation never divides by zero. |
| `HsvHsl.FromColorInUnit` | ColorRamp/HsvHslHelper.cs:34-46 | A colour in range gives S and V (or L) in [0, 1]. |
| `HsvHsl.WrapFraction` | ColorRamp/HsvHslHelper.cs:95-96 | The wrap of HueToRgb brings any t in [-1, 2] into [0, 1], and leaves t already in [0, 1] unchanged. |
| `HsvHsl.HueToRgbBetween` | ColorRamp/HsvHslHelper.cs:93-101 | For t >= -1, HueToRgb returns a value between p and q. |
| `HsvHsl.HsvSector` | ColorRamp/HsvHslHelper.cs:60-66 | The sector lies in (-6, 6), and in 0..5 for a hue in [0, 360). |
| `HsvHsl.HsvPick` | ColorRamp/HsvHslHelper.cs:66-74 | Alpha is kept. |
| `HsvHsl.HsvPickChannels` | ColorRamp/HsvHslHelper.cs:66-74 | In every sector, each channel takes one of v, p, q, t. |
| `HsvHsl.HsvLevelP` | ColorRamp/HsvHslHelper.cs:63 | p = v(1 - s) lies in [0, v] for s and v in [0, 1]. |
| `HsvHsl.HsvLevelQ` | ColorRamp/HsvHslHelper.cs:64 | q = v(1 - s f) lies in [0, v]. |
| `HsvHsl.HsvLevelT` | ColorRamp/HsvHslHelper.cs:65 | t = v(1 - s(1 - f)) lies in [0, v]. |
| `HsvHsl.HsvToRgb` | ColorRamp/HsvHslHelper.cs:58-75 | The HSV branch keeps alpha. |
| `HsvHsl.HsvToRgbInRange` | ColorRamp/HsvHslHelper.cs:58-75 | With s and v in [0, 1], every channel lies in [0, v]. |
| `HsvHsl.HslLevelQ` | ColorRamp/HsvHslHelper.cs:83-84 | q lies in [l, 1] and p = 2l - q is not negative. |
| `HsvHsl.HslToRgb` | ColorRamp/HsvHslHelper.cs:80-88 | The HSL branch keeps alpha. |
| `HsvHsl.HslToRgbInRange` | ColorRamp/HsvHslHelper.cs:81-88 | With h in [0, 360) and s, l in [0, 1], every channel lies in [0, 1]. |
| `HsvHsl.ToColor` | ColorRamp/HsvHslHelper.cs:51-91 | Alpha is kept, and s = 0 gives the grey (v, v, v). |
| `HsvHsl.ToColorInUnit` | ColorRamp/HsvHslHelper.cs:51-91 | Components in range convert back to a colour in range. |
| `HsvHsl.GreyRoundTrip` | ColorRamp/HsvHslHelper.cs:16-91 | FromColor followed by ToColor returns every grey exactly, in both spaces. |
| `HsvHsl.HsvLevelsOfColor` | ColorRamp/HsvHslHelper.cs:62-65 | For V = max and S = (max - min) / max, the levels are p = min, q = max - (max - min) f and t = min + (max - min) f. |
| `HsvHsl.SectorScaled` | ColorRamp/HsvHslHelper.cs:60-66 | A hue of 60 (x / d + k + m), with x + d m in [0, d), falls in sector k, and d times its fraction is x + d m. |
| `HsvHsl.HsvRoundTrip` | ColorRamp/HsvHslHelper.cs:16-75 | Every colour with channels in [0, 1] survives FromColor followed by ToColor in HSV exactly. |
| `HsvHsl.HslLevelsOfColor` | ColorRamp/HsvHslHelper.cs:83-84 | For L = (max + min) / 2 and S = (max - min) / (1 - abs(2L - 1)), S is not 0, q = max and so p = min. |
| `HsvHsl.RisingRamp` | ColorRamp/HsvHslHelper.cs:93-98 | On the rising piece of HueToRgb, a wrapped position of x / (6 (q - p)) gives p + x. |
| `HsvHsl.FallingRamp` | ColorRamp/HsvHslHelper.cs:93-100 | On the falling piece of HueToRgb, a wrapped position of 2/3 + x / (6 (q - p)) gives p - x. |
| `HsvHsl.HslRoundTrip` | ColorRamp/HsvHslHelper.cs:16-101 | Every colour with channels in [0, 1] survives FromColor followed by ToColor in HSL exactly. |
| `HsvHsl.RoundTrip` | ColorRamp/HsvHslHelper.cs:16-101 | FromColor and ToColor are inverse on colours in range, in both spaces. |
| `Interp.Lerp` | ColorRamp/ColorRampEffectProcessor.cs:403 | Lerp gives a at t = 0, b at t = 1, and a when a = b. |
| `Interp.LerpInRange` | ColorRamp/ColorRampEffectProcessor.cs:403 | For t in [0, 1] the result lies between a and b. |
| `Interp.LerpColor` | ColorRamp/ColorRampEffectProcessor.cs:310-317 | The RGB branch gives c1 at t = 0 and c2 at t = 1. |
| `Interp.LerpColorInUnit` | ColorRamp/ColorRampEffectProcessor.cs:310-317 | Colours in range blend to colours in range. |
| `Interp.ModeOf` | ColorRamp/ColorRampEffectProcessor.cs:320 | HSL exactly for GradientType.HSL; HSV otherwise. |
| `Interp.HueTarget` | ColorRamp/ColorRampEffectProcessor.cs:324-337 | The target is h2 or h2 ± 360. Near keeps the sweep within 180°, Far makes it at least 180°, Clockwise ends in [h1, h1 + 360), and CounterClockwise ends in (h1 - 360, h1]. |
| `Interp.WrapHue` | ColorRamp/ColorRampEffectProcessor.cs:339 | `(x % 360 + 360) % 360` lies in [0, 360) and leaves a hue already there unchanged. |
| `Interp.WrapHueOneTurn` | ColorRamp/ColorRampEffectProcessor.cs:339 | A hue one turn above or below wraps back onto itself. |
| `Interp.InterpolatedHue` | ColorRamp/ColorRampEffectProcessor.cs:339 | The interpolated hue lies in [0, 360), starts at h1 and ends at h2. |
| `Interp.SweepDirection` | ColorRamp/ColorRampEffectProcessor.cs:333-336 | The unwrapped hue never decreases in t under Clockwise, and never increases under CounterClockwise. |
| `Interp.HsxInterpolate` | ColorRamp/ColorRampEffectProcessor.cs:318-345 | Alpha is lerped, and two greys blend exactly like the RGB lerp. |
| `Interp.HsxInterpolateInUnit` | ColorRamp/ColorRampEffectProcessor.cs:318-345 | Colours in range can be converted and blend to a colour in range. |
| `Interp.InterpolateColor` | ColorRamp/ColorRampEffectProcessor.cs:308-346 | Alpha is lerped in every model. RGB hits both end colours. Greys blend as in RGB in every model. The HSV and HSL ends are stated by `Interp.InterpolateColorEnds`. |
| `Interp.InterpolateColorInUnit` | ColorRamp/ColorRampEffectProcessor.cs:308-346 | Colours in range give colours in range, in every model. |
| `Interp.HsxInterpolateEnds` | ColorRamp/ColorRampEffectProcessor.cs:318-345 | For colours in range and every hue policy, the HSV and HSL path gives the first colour at t = 0 and the second at t = 1. |
| `Interp.InterpolateColorEnds` | ColorRamp/ColorRampEffectProcessor.cs:308-346 | For colours in range, every model and every hue policy hits the first colour at t = 0 and the second at t = 1. |
| `Ramp.LastAtOrBelow` | ColorRamp/ColorRampEffectProcessor.cs:279 | Finds the last point at or below t, and reports none exactly when every point lies above t. |
| `Ramp.FirstAbove` | ColorRamp/ColorRampEffectProcessor.cs:280 | Finds the first point above t, and reports none exactly when no point lies above t. |
| `Ramp.Bracket` | ColorRamp/ColorRampEffectProcessor.cs:279-280 | Both ends are points of the list, and when the segment is not empty, t lies in [p1, p2). |
| `Ramp.LocalT` | ColorRamp/ColorRampEffectProcessor.cs:282-284 | An empty or reversed segment gives 0. Inside [p1, p2) the result lies in [0, 1). Before p1 it is negative. |
| `Ramp.SegmentT` | ColorRamp/ColorRampEffectProcessor.cs:279-284 | On any non-empty list, sorted or not, the local parameter of the bracketing segment lies in [0, 1). |
| `Ramp.Smoothstep` | ColorRamp/ColorRampEffectProcessor.cs:288 | The ease curve fixes 0 and 1. |
| `Ramp.Eased` | ColorRamp/ColorRampEffectProcessor.cs:286-290 | Ease applies the curve, Constant gives 0, and every other mode passes the parameter through. |
| `Ramp.EasedInUnit` | ColorRamp/ColorRampEffectProcessor.cs:286-290 | Every easing maps [0, 1] into [0, 1]. |
| `Ramp.EaseMonotone` | ColorRamp/ColorRampEffectProcessor.cs:287-288 | The ease curve is monotone on [0, 1]. |
| `Ramp.Cardinal` | ColorRamp/ColorRampEffectProcessor.cs:389-394 | The Catmull-Rom basis passes through v1 at 0 and v2 at 1, and reproduces a constant. |
| `Ramp.BSpline` | ColorRamp/ColorRampEffectProcessor.cs:396-401 | The B-spline gives (v0 + 4 v1 + v2) / 6 at 0 and (v1 + 4 v2 + v3) / 6 at 1, and reproduces a constant. |
| `Ramp.BSplineWeightsSumToSix` | ColorRamp/ColorRampEffectProcessor.cs:396-401 | The four weights sum to 6 at every u, so the basis averages its inputs. |
| `Ramp.CardinalOvershoot` | ColorRamp/ColorRampEffectProcessor.cs:389-394 | The Catmull-Rom basis overshoots: over 0, 0, 1, 1 at u = -1 it gives 2. |
| `Ramp.SplineIndexFrom` | ColorRamp/ColorRampEffectProcessor.cs:350-354 | The search loop stops at the first i whose next point is at or after t, or at the last index. |
| `Ramp.SplineIndex` | ColorRamp/ColorRampEffectProcessor.cs:350-354 | The segment index is an index of the list. |
| `Ramp.NeighboursOf` | ColorRamp/ColorRampEffectProcessor.cs:356-359 | The four neighbours are clamped indices of the list, in order, with k1 = i. |
| `Ramp.SplineColorAt` | ColorRamp/ColorRampEffectProcessor.cs:365-386 | After the final clamp, every spline colour lies in [0, 1]. |
| `Ramp.SplineColorAsWritten` | ColorRamp/ColorRampEffectProcessor.cs:348-387 | GetSplineColor as written, with localT unclamped. Its colour lies in [0, 1]. |
| `Ramp.SplineT` | ColorRamp/ColorRampEffectProcessor.cs:361-363 | The spline parameter of the correction under Findings: never negative, and at most 1 on a sorted list. |
| `Ramp.SplineTBounds` | ColorRamp/ColorRampEffectProcessor.cs:350-363 | On a sorted list the unclamped local parameter never exceeds 1. |
| `Ramp.SplineTUnchangedFromFirstPoint` | ColorRamp/ColorRampEffectProcessor.cs:361-363 | From the first point on, the correction under Findings changes nothing. |
| `Ramp.SplineColor` | ColorRamp/ColorRampEffectProcessor.cs:348-387 | The spline colour of the correction under Findings lies in [0, 1]. |
| `Ramp.CardinalHoldsFirstColour` | ColorRamp/ColorRampEffectProcessor.cs:361-363 | Before the first point of a sorted list, the corrected Cardinal ramp holds the first colour. |
| `Ramp.SplineBeforeFirstPoint` | ColorRamp/ColorRampEffectProcessor.cs:361-363 | For black at 0.5 and white at 1 at t = 0, the code as written gives white and the corrected version gives black. |
| `Ramp.RampColor` | ColorRamp/ColorRampEffectProcessor.cs:272-292 | Spline samples, taken as written, lie in [0, 1], and Constant in RGB gives the colour of the bracketing point at or below t. |
| `Ramp.RampTable` | ColorRamp/ColorRampEffectProcessor.cs:267-299 | 256 entries; entry i is the ramp colour at i / 255. |
| `Ramp.RampColorInUnit` | ColorRamp/ColorRampEffectProcessor.cs:267-299 | Point colours in range give ramp colours in range for every setting. |
| `Ramp.RampConstantHolds` | ColorRamp/ColorRampEffectProcessor.cs:279-292 | With colours in range, Constant easing gives the colour of the last point at or below t (the first point before it), in every colour model and hue policy. |
| `Ramp.RampPassesThroughPoints` | ColorRamp/ColorRampEffectProcessor.cs:279-292 | For strictly increasing points, Linear, Ease and Constant give each point's own colour at its position: in RGB for any colours, in HSV and HSL for colours in range. |
| `Ramp.SplineIndexAtPoint` | ColorRamp/ColorRampEffectProcessor.cs:350-354 | On a strictly increasing list, the search at point k's position stops at 0 for k = 0 and at k - 1 otherwise. |
| `Ramp.CardinalAtEnds` | ColorRamp/ColorRampEffectProcessor.cs:356-386 | With colours in range, the Cardinal colour at u = 0 is point i's and at u = 1 its right neighbour's. |
| `Ramp.CardinalPassesThroughPoints` | ColorRamp/ColorRampEffectProcessor.cs:348-387 | The Cardinal ramp, as written, passes through every point of a strictly increasing list with colours in range. |
| `Ramp.EffectivePoints` | ColorRamp/ColorRampEffectProcessor.cs:254-261 | Fewer than two points fall back to black at 0 and white at 1; otherwise the sorted points stay. Order and range are kept. |
| `Ramp.SampleT` | ColorRamp/ColorRampEffectProcessor.cs:269 | Each sample position i / 255 for i <= 255 lies in [0, 1]. |
| `Ramp.DefaultRampIsGreyRamp` | ColorRamp/ColorRampEffectProcessor.cs:254-292 | The default ramp, black at 0 and white at 1 with Linear easing, is the grey ramp (1, t, t, t) in every colour model and hue policy. |
| `Ramp.DefaultPairIsGrey` | ColorRamp/ColorRampEffectProcessor.cs:254-292 | The black-to-white pair is convertible in every colour model and ramps as (1, t, t, t) on [0, 1]. |
| `Ramp.DefaultRampBelowOne` | ColorRamp/ColorRampEffectProcessor.cs:279-292 | Below 1 the default pair gives (1, t, t, t). |
| `Ramp.GreyPairBelowOne` | ColorRamp/ColorRampEffectProcessor.cs:279-292 | Two greys at 0 and 1 ramp linearly below 1. |
| `Ramp.DefaultRampAtOne` | ColorRamp/ColorRampEffectProcessor.cs:279-292 | At t = 1 the default ramp is white. |
| `Ramp.GreyPairAtOne` | ColorRamp/ColorRampEffectProcessor.cs:279-292 | At t = 1 a grey pair gives the second grey. |
| `Channel.EffectiveSettings` | ColorRamp/ColorRampEffectProcessor.cs:137-139 | With the opacity toggle on, the channel is A and keep-alpha is off. With the toggle off, both settings pass through. |
| `Channel.UsesRgbToHue` | ColorRamp/ColorRampEffectProcessor.cs:122-127 | True exactly for H, S and V. |
| `Channel.SourceRow` | ColorRamp/ColorRampEffectProcessor.cs:194-246 | Every channel except L reads one of the four input rows. |
| `Channel.ChannelMatrix` | ColorRamp/ColorRampEffectProcessor.cs:191-247 | A 5x4 matrix. For every channel but L, one input row is all ones and the rest is zero. For L the rows hold the Rec. 601 luma weights, which sum to one. |
| `Channel.MatrixExtractsChannel` | ColorRamp/ColorRampEffectProcessor.cs:191-249 | Applying the matrix copies the selected channel into all four outputs. |
| `Channel.LumaOfGrey` | ColorRamp/ColorRampEffectProcessor.cs:211-220 | For a grey pixel the luma channel is the grey level itself. |
| `Channel.CrossFadeFactor` | ColorRamp/ColorRampEffectProcessor.cs:179-182 | The weight lies in [0, 1]. It is 1 at strength 0 or below (the source image), 0 at 100 or above (the full ramp), and 1 - strength / 100 in between. |
| `Channel.CrossFadeMonotone` | ColorRamp/ColorRampEffectProcessor.cs:179-182 | More strength never gives the source image more weight. |
| `Mix.BoolToInt` | ColorRamp/ColorRampMixCustomEffect.cs:72 | A flag becomes 0 or 1, and is non-zero exactly when it was true. |
| `Mix.MixModeCode` | ColorRamp/ColorRampEffectProcessor.cs:171 | The (int) cast of MixColorSpace: RGB 0, HSL 1, HSV 2, and nothing else. |
| `Mix.MixModeCodeInjective` | ColorRamp/ColorRampEffectProcessor.cs:171 | Distinct colour spaces get distinct codes. |
| `Mix.EffectImpl.constructor` | ColorRamp/ColorRampMixCustomEffect.cs:61 | A new constant buffer is all zero, and every getter reads false or 0. |
| `Mix.EffectImpl.SetMixMode` | ColorRamp/ColorRampMixCustomEffect.cs:69 | Stores the value verbatim and changes no other field. |
| `Mix.EffectImpl.SetKeepCh1` | ColorRamp/ColorRampMixCustomEffect.cs:72 | Stores the flag as 0 or 1, and the getter reads back the flag. |
| `Mix.EffectImpl.SetKeepCh2` | ColorRamp/ColorRampMixCustomEffect.cs:75 | Same as SetKeepCh1, for channel 2. |
| `Mix.EffectImpl.SetKeepCh3` | ColorRamp/ColorRampMixCustomEffect.cs:78 | Same as SetKeepCh1, for channel 3. |
| `Mix.EffectImpl.SetKeepAlpha` | ColorRamp/ColorRampMixCustomEffect.cs:81 | Same as SetKeepCh1, for alpha. |
| `Processor.ColorRampEffectProcessor.constructor` | ColorRamp/ColorRampEffectProcessor.cs:30-44 | Four fresh 256-entry tables, every cache empty, and no matrix or weight set yet. |
| `Processor.ColorRampEffectProcessor.CurrentPoints` | ColorRamp/ColorRampEffectProcessor.cs:254-261 | The tables are always built from at least two points. |
| `Processor.ColorRampEffectProcessor.Update` | ColorRamp/ColorRampEffectProcessor.cs:129-185 | Matrix: rebuilt for the effective channel exactly when it differs from the cached one, otherwise kept. Tables: hold the ramp of the points before the call when the gradient changed, otherwise untouched. Mix parameters: always pushed, with the effective keep-alpha, and no other field of the mix effect written. Cross-fade weight: always set. Afterwards every cache is current. |
| `Processor.ColorRampEffectProcessor.DetectChanges` | ColorRamp/ColorRampEffectProcessor.cs:142-167 | The change detection of Update: the same rebuild conditions, and the caches current afterwards. |
| `Processor.ColorRampEffectProcessor.SyncInputPipeline` | ColorRamp/ColorRampEffectProcessor.cs:153-158 | Rebuilds the matrix only when the channel changed, then caches the channel. |
| `Processor.ColorRampEffectProcessor.SyncGradient` | ColorRamp/ColorRampEffectProcessor.cs:148-167 | Rebuilds the tables only when the gradient changed; afterwards nothing counts as changed. |
| `Processor.ColorRampEffectProcessor.RefreshGradient` | ColorRamp/ColorRampEffectProcessor.cs:160-167 | Rebuilds the tables, and caches the list and the settings they were built from. |
| `Processor.ColorRampEffectProcessor.RememberGradient` | ColorRamp/ColorRampEffectProcessor.cs:163-166 | The four caches take the item's current list and settings. |
| `Processor.ColorRampEffectProcessor.PushMixParameters` | ColorRamp/ColorRampEffectProcessor.cs:169-176 | The mix effect reads back the item's mix space code and keep flags; only those five fields of the mix effect are written. |
| `Processor.ColorRampEffectProcessor.UpdateInputPipeline` | ColorRamp/ColorRampEffectProcessor.cs:187-250 | The matrix is the channel's matrix, and the formatter reads the RgbToHue output exactly for H, S and V. |
| `Processor.ColorRampEffectProcessor.UpdateGradientTables` | ColorRamp/ColorRampEffectProcessor.cs:252-305 | Entry i of the four tables holds the channels of the ramp colour at i / 255, for the sorted points or the fallback pair. |
| `Processor.ColorRampEffectProcessor.FillTables` | ColorRamp/ColorRampEffectProcessor.cs:267-299 | After the loop, every entry of the four tables equals the corresponding channel of the ramp table. |
| `Processor.ColorRampEffectProcessor.FillEntry` | ColorRamp/ColorRampEffectProcessor.cs:269-298 | One iteration writes index i of each table and no other index. |
| `Processor.ColorRampEffectProcessor.RampSample` | ColorRamp/ColorRampEffectProcessor.cs:272-292 | The loop body computes the ramp colour at t. |
| `Processor.ColorRampEffectProcessor.FindSegment` | ColorRamp/ColorRampEffectProcessor.cs:350-354 | The search loop finds the segment index of t. |
| `Processor.ColorRampEffectProcessor.GetSplineColor` | ColorRamp/ColorRampEffectProcessor.cs:348-387 | Computes the spline colour of t as written, with the local parameter unclamped. |
| `Converters.PositionToOffset` | ColorRamp/GradientPositionConverter.cs:9-24 | Anything other than a pair of doubles gives 0. For a pair (p, w), w <= 8 gives 0 and w > 8 gives p (w - 8), for every p. |
| `Converters.UsableWidth` | ColorRamp/GradientPositionConverter.cs:15-19 | The width left between the paddings, or 0 when none is left. |
| `Converters.OffsetOnBar` | ColorRamp/GradientPositionConverter.cs:11-21 | Positions in [0, 1] land between the paddings: 0 on the left edge, 1 on the right. |
| `Converters.OffsetMonotone` | ColorRamp/GradientPositionConverter.cs:18-21 | A larger position is never drawn further left. |
| `Converters.OffsetDeterminesPosition` | ColorRamp/GradientPositionConverter.cs:18-21 | On a bar wider than the paddings, the offset gives the position back. |
| `Converters.RoundHalfEven` | ColorRamp/PercentConverter.cs:14 | Math.Round goes to the nearest integer, and to the even one at a tie. |
| `Converters.RoundHalfEvenOfInteger` | ColorRamp/PercentConverter.cs:14 | Rounding an integer gives the integer back. |
| `Converters.RoundTenths` | ColorRamp/PercentConverter.cs:14 | The result is a whole number of tenths, at most 0.05 away from the input. |
| `Converters.PercentConvert` | ColorRamp/PercentConverter.cs:9-17 | A double becomes its percentage rounded to one decimal: a whole number of tenths, within 0.05 of d · 100. Anything else becomes the int 0. |
| `Converters.PercentConvertBack` | ColorRamp/PercentConverter.cs:19-30 | A parsable string or a double is read as a percentage and clamped into [0, 1]. Anything else gives 0. |
| `Converters.PercentConvertBackMonotone` | ColorRamp/PercentConverter.cs:25-28 | A larger percentage never reads as a smaller ratio. |
| `Converters.PercentConvertBackString` | ColorRamp/PercentConverter.cs:21-28 | A string reads exactly as the double it parses to. |
| `Converters.PercentRoundTrip` | ColorRamp/PercentConverter.cs:9-30 | A ratio in thousandths survives display and reading back exactly. |
| `Converters.PercentRoundTripClose` | ColorRamp/PercentConverter.cs:9-30 | Any ratio in [0, 1] comes back within 0.0005. |
| `Editor.PreviewColor` | ColorRamp/GradientEditorViewModel.cs:240-267 | The editor's InterpolateColor lerps alpha, and for HSV and HSL agrees with the processor's. |
| `Editor.SegmentOffsetOnSegment` | ColorRamp/GradientEditorViewModel.cs:224-225 | Sample 0 sits on p1, sample 10 on p2, and every sample lies between them. |
| `Editor.SegmentStops` | ColorRamp/GradientEditorViewModel.cs:222-228 | The inner loop emits one stop per sample. |
| `Editor.BlendedStops` | ColorRamp/GradientEditorViewModel.cs:217-229 | Eleven stops per segment. |
| `Editor.BlendedStopAt` | ColorRamp/GradientEditorViewModel.cs:217-228 | Stop 11q + j of the preview is sample j of segment q. |
| `Editor.PointStops` | ColorRamp/GradientEditorViewModel.cs:234 | The RGB preview has one stop per point, with the point's colour at its position. |
| `Editor.PreviewShape` | ColorRamp/GradientEditorViewModel.cs:208-238 | RGB: the points themselves. HSV and HSL: 11 stops per adjacent pair, from the first point of the pair to the second, and stop 11i + j is sample j of segment i (the colour the processor gives fraction j/10 of that segment). |
| `Editor.BlendedAll` | ColorRamp/GradientEditorViewModel.cs:217-228 | Every stop 11i + j of the HSV / HSL preview is sample j of segment i. |
| `Editor.BlendedEnds` | ColorRamp/GradientEditorViewModel.cs:217-228 | Segment i starts on point i and ends on point i + 1. |
| `Editor.SegmentEnds` | ColorRamp/GradientEditorViewModel.cs:222-227 | A segment's first sample sits on its first point and its last sample on its second point. |
| `Editor.PreviewOffsetsOrdered` | ColorRamp/GradientEditorViewModel.cs:211-235 | For points in position order, the preview's offsets never go back. |
| `Editor.BlendedOffsetsOrdered` | ColorRamp/GradientEditorViewModel.cs:217-229 | In the HSV and HSL preview, stops in index order are in offset order. |
| `Editor.SampleOffsetsOrdered` | ColorRamp/GradientEditorViewModel.cs:219-225 | Samples of earlier segments, or earlier in the same segment, lie no further right. |
| `Editor.OffsetStepsForward` | ColorRamp/GradientEditorViewModel.cs:224-225 | Along a segment that runs left to right, later samples lie further right. |
| `Editor.Mirrored` | ColorRamp/GradientEditorViewModel.cs:103 | Reverse maps every position p to 1 - p and keeps every colour. |
| `Editor.MirroredTwice` | ColorRamp/GradientEditorViewModel.cs:103 | Reversing twice restores the list, and positions in [0, 1] stay in [0, 1]. |
| `Editor.Distributed` | ColorRamp/GradientEditorViewModel.cs:89-93 | Distribute keeps the count and every colour. |
| `Editor.DistributedEvenly` | ColorRamp/GradientEditorViewModel.cs:89-93 | After Distribute the first point sits at 0 and the last at 1, with equal steps of 1 / (n - 1), strictly increasing, all in [0, 1]. |
| `Editor.IndexOf` | ColorRamp/GradientEditorViewModel.cs:79 | Finds the first occurrence of a point that is in the list. |
| `Editor.PlaceEvenly` | ColorRamp/GradientEditorViewModel.cs:90-93 | The Distribute loop moves the k-th point of the list to k / (n - 1) and keeps its colour. |
| `Editor.SpreadEvenly` | ColorRamp/GradientEditorViewModel.cs:89-93 | Over points in position order: the k-th goes to k / (n - 1), a point that lay strictly before another still does, and every colour and command stays. |
| `Editor.DistributedKeepsOrder` | ColorRamp/GradientEditorViewModel.cs:89-93 | Distributing values sorted by position keeps a strict order between any two of them. |
| `Editor.MirrorPositions` | ColorRamp/GradientEditorViewModel.cs:103 | The Reverse loop turns the values into their mirror. |
| `Editor.CopyPoints` | ColorRamp/GradientEditorViewModel.cs:170 | Fresh, distinct copies with the same values and commands, in the same order. |
| `Editor.NewPointList` | ColorRamp/GradientEditorViewModel.cs:170 | A fresh immutable list of fresh copies. |
| `Editor.DistributeSorted` | ColorRamp/GradientEditorViewModel.cs:89-93 | The values in position order become the distributed values of the old ones. A point strictly before another stays before it, and colours and commands stay, so every point still forwards to the editor's commands. |
| `Editor.EvenlySpacedIsSorted` | ColorRamp/GradientEditorViewModel.cs:89-93 | Once the points sit at k / (n - 1), sorting them again gives back the same order. |
| `Editor.BuildStops` | ColorRamp/GradientEditorViewModel.cs:213-235 | The two loops build exactly the preview of the sorted values. |
| `Editor.BlendSegments` | ColorRamp/GradientEditorViewModel.cs:217-229 | The outer HSV and HSL loop builds every segment in turn. |
| `Editor.AppendSegment` | ColorRamp/GradientEditorViewModel.cs:219-228 | The inner loop appends the eleven samples of segment i. |
| `Editor.WiredPoint` | ColorRamp/GradientEditorViewModel.cs:62-65 | A fresh point with the given value, wired to the given commands. |
| `Editor.Open` | ColorRamp/GradientEditorViewModel.cs:41-112 | A new editor holds the model's values in model order and no events, with the invariants, the sync and the preview all established. |
| `Editor.GradientEditorViewModel.Init` | ColorRamp/GradientEditorViewModel.cs:41-54 | Fresh item commands, no points, no stops and no events. |
| `Editor.GradientEditorViewModel.SortedValues` | ColorRamp/GradientEditorViewModel.cs:170 | The values in position order: one per point, sorted. |
| `Editor.GradientEditorViewModel.LoadFromModel` | ColorRamp/GradientEditorViewModel.cs:134-152 | The points are fresh copies of the model's points, in model order. Afterwards the model holds them in position order, and a model already in order keeps its values. The preview is current. |
| `Editor.GradientEditorViewModel.LoadCopies` | ColorRamp/GradientEditorViewModel.cs:141-148 | One fresh, wired copy per model point, in order. |
| `Editor.GradientEditorViewModel.TakePoints` | ColorRamp/GradientEditorViewModel.cs:139-147 | Clear and re-add: the collection is exactly the loaded points. |
| `Editor.GradientEditorViewModel.Raise` | ColorRamp/GradientEditorViewModel.cs:53-54 | The event is recorded, and nothing else the editor's invariants read changes. |
| `Editor.GradientEditorViewModel.Add` | ColorRamp/GradientEditorViewModel.cs:56-70 | Appends one fresh grey point, at the parameter or at 0.5, between a BeginEdit and an EndEdit. Every earlier point stays, and the model and the preview follow. |
| `Editor.GradientEditorViewModel.AppendNew` | ColorRamp/GradientEditorViewModel.cs:61-68 | One new grey point at the given position, appended after the others. |
| `Editor.GradientEditorViewModel.CanRemove` | ColorRamp/GradientEditorViewModel.cs:35 | True exactly when RemoveCommand's CanExecute (more than two points and the point in the collection) holds for every point of a non-empty collection, that is, exactly when there are more than two points. |
| `Editor.GradientEditorViewModel.CanDistribute` | ColorRamp/GradientEditorViewModel.cs:36 | Enabled exactly when CanRemove is. |
| `Editor.GradientEditorViewModel.CanReverse` | ColorRamp/GradientEditorViewModel.cs:37 | Enabled whenever CanRemove is, and in addition for exactly two points; that is, exactly when there are at least two points. |
| `Editor.GradientEditorViewModel.Remove` | ColorRamp/GradientEditorViewModel.cs:72-82 | No point: no events. An absent point: the events only, nothing else changes. A present point: its first occurrence goes, and the model and the preview follow. When the command was enabled (cs:73), exactly one point goes and at least two remain. |
| `Editor.GradientEditorViewModel.RemoveAt` | ColorRamp/GradientEditorViewModel.cs:79 | Removes exactly the point at index i. |
| `Editor.GradientEditorViewModel.Distribute` | ColorRamp/GradientEditorViewModel.cs:84-96 | Between a BeginEdit and an EndEdit, the points in position order take the positions k / (n - 1) with their colours, and a point that lay strictly before another still does. The model and the preview follow. |
| `Editor.GradientEditorViewModel.DistributePositions` | ColorRamp/GradientEditorViewModel.cs:88-93 | The sorted values become the distributed values of the old ones, a point strictly before another stays before it, and the editor's invariants hold. |
| `Editor.GradientEditorViewModel.Reverse` | ColorRamp/GradientEditorViewModel.cs:98-106 | The values become their mirror between a BeginEdit and an EndEdit, and the model and the preview follow. |
| `Editor.GradientEditorViewModel.ReversePositions` | ColorRamp/GradientEditorViewModel.cs:103 | Every point is mirrored in place. |
| `Editor.GradientEditorViewModel.SyncToModel` | ColorRamp/GradientEditorViewModel.cs:168-188 | A fresh list of sorted copies goes to this effect and every other selected effect, and the preview is redrawn. The points are untouched. |
| `Editor.GradientEditorViewModel.CopyToOtherItems` | ColorRamp/GradientEditorViewModel.cs:201-204 | Every other selected effect holds this editor's values in position order. |
| `Editor.GradientEditorViewModel.PublishSorted` | ColorRamp/GradientEditorViewModel.cs:170-185 | Every model holds the sorted copies; nothing else changes. |
| `Editor.GradientEditorViewModel.ModelList` | ColorRamp/GradientEditorViewModel.cs:170 | A fresh list of the sorted values, sharing no object with the editor. |
| `Editor.GradientEditorViewModel.Publish` | ColorRamp/GradientEditorViewModel.cs:172-185 | This effect and every other selected effect take the list. |
| `Editor.GradientEditorViewModel.ShareWithOthers` | ColorRamp/GradientEditorViewModel.cs:176-185 | Every other selected effect takes the list. |
| `Editor.GradientEditorViewModel.UpdatePreview` | ColorRamp/GradientEditorViewModel.cs:208-238 | The brush shows the preview of the current values; with no points it keeps its old stops. |
| `Editor.GradientEditorViewModel.BuildPreview` | ColorRamp/GradientEditorViewModel.cs:210-236 | The new stops are built from the points in position order. |

## Left out

- **Floating point.** `float` and `double` arithmetic is modelled over the reals, so rounding, NaN and infinities are not captured. The source's `(float)` casts of positions are identities here. `Colors.Gray` is its scRGB level to seven digits. `HsvHsl.RoundTrip` and `Interp.InterpolateColorEnds` are exact over the reals; in `float` the round trip can be off by rounding.
- **The sRGB byte form of `Color`.** Only the scRGB channels the code reads are modelled.
- **Direct2D and the shader.** The effect graph of the processor constructor (ColorRampEffectProcessor.cs:46-118), `SetInput`, `SetTableValue`, `UpdateConstants`, `LoadShader` and the HLSL mix shader are not modelled. The four tables, the matrix, the RgbToHue flag, the cross-fade weight and the constant buffer stand for what is handed to them.
- **The input graph.** UpdateInputPipeline's `SetInput` / `SetInputEffect` calls are represented by the flag `formatterReadsHue`.
- **Animation.** `ColorRampFactor.GetValue(frame, length, fps)` is the `strength` parameter of `Update`.
- **Missing effect properties.** `InputChannel`, `KeepAlpha`, `KeepCh1`–`KeepCh3` and `MixColorSpace`, which the processor reads, are not declared in ColorRampEffect.cs. They are plain fields of the effect class here.
- **Editor wiring.** The `PropertyChanged` and `CollectionChanged` subscriptions, the dispatcher, `OnPropertyChanged`, `UpdateButtons`, `RaiseCanExecuteChanged` and `Dispose` are not modelled. The handler of `OnPointsChangedBySystem` only re-runs `LoadFromModel`, which is modelled.
- **Intermediate syncs.** Each collection or property change calls `SyncToModel`. A command that changes several points therefore syncs several times, and each sync replaces the list written by the one before. The model syncs once, at the end of each command, and that single sync leaves the same final state.
- **Constructor split.** The editor's constructor is modelled as `Init` followed by `LoadFromModel`, which the factory `Editor.Open` combines. `properties` becomes the effect plus the sequence of other selected ColorRampEffects.
- Editor.GradientEditorViewModel.Remove: modelled for every parameter, not only where its CanExecute (`CanExecuteRemove`) holds, because the execute body does not test the guard again; the contract states the effect in both cases.
- Editor.GradientEditorViewModel.Reverse: modelled without the `Count >= 2` guard of its command (`CanReverse`), because mirroring is defined for any number of points. Distribute keeps its guard `Count > 2` as a precondition, because that is the CanExecute of its command (GradientEditorViewModel.cs:85), so the command never runs with two points or fewer.
- **Converter ConvertBack.** `GradientPositionConverter.ConvertBack` only throws NotImplementedException and is not modelled.
- **Parsing.** `double.TryParse` under the current culture is the parameter `parse`.
- **Out-of-scope files.** GradientEditorControl.xaml.cs and GradientEditorAttribute.cs are not part of this model.
- Interp.HsxInterpolate: the contract fixes alpha, the grey case and the range. The hue of a non-grey blend is stated only through `Interp.HueTarget` and `Interp.InterpolatedHue`, not for the converted colour.
- Ramp.RampColor: between points, the HSV and HSL colour is stated through its range (`Ramp.RampColorInUnit`), its values at the points (`Ramp.RampPassesThroughPoints`) and Constant's hold (`Ramp.RampConstantHolds`), not in closed form, because the conversions have none.

## Findings

| source | as written | input that shows it | evidently intended | confidence | as-written member | corrected member |
|---|---|---|---|---|---|---|
| ColorRamp/ColorRampEffectProcessor.cs:361-363 | `localT` of the spline branch is not clamped below. For t before the first point (segment index 0) it is negative, and the Cardinal basis extrapolates there. | Points: black at 0.5, white at 1. At t = 0 with Cardinal, localT = -1 and the basis gives 2 in each colour channel, which the final clamp turns into white. | Before the first point the ramp holds the first point's colour, as the Linear, Ease and Constant branches do (localT = 0). | not executed | `Ramp.SplineColorAsWritten`, `Ramp.SplineBeforeFirstPoint` | `Ramp.SplineColor`, `Ramp.CardinalHoldsFirstColour` |

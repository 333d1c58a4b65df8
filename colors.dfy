/** System.Windows.Media.Color as the colour code reads it: four scRGB
    components (ScA, ScR, ScG, ScB), over the reals. */
module Colors {

  /** Components in the argument order of Color.FromScRgb(a, r, g, b). */
  datatype Color = Color(a: real, r: real, g: real, b: real)

  /** Colors.Black and Colors.White: opaque, all channels 0 or all 1. */
  const Black: Color := Color(1.0, 0.0, 0.0, 0.0)
  const White: Color := Color(1.0, 1.0, 1.0, 1.0)

  /** Colors.Gray is sRGB #FF808080; its scRGB level, to seven digits. */
  const GrayLevel: real := 0.2158605
  const Gray: Color := Color(1.0, GrayLevel, GrayLevel, GrayLevel)

  predicate InUnit(x: real) { 0.0 <= x <= 1.0 }

  /** Every component in [0, 1]: what a colour chosen in sRGB bytes has. */
  predicate IsUnitColor(c: Color) { InUnit(c.a) && InUnit(c.r) && InUnit(c.g) && InUnit(c.b) }
}

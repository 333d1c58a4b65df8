/** The per-frame parameters the processor derives from the effect's settings:
    the effective input channel and keep-alpha flag, the 5x4 colour matrix that
    extracts the channel, and the cross-fade weight of the strength setting. */
module Channel {
  import opened Numeric
  import opened Colors
  import opened Effect

  /** The legacy opacity toggle forces the alpha channel. */
  function EffectiveChannel(loadOpacityToggle: bool, inputChannel: GradientInputChannel): GradientInputChannel
  {
    if loadOpacityToggle then A else inputChannel
  }

  /** The legacy opacity toggle forces keep-alpha off. */
  function EffectiveKeepAlpha(loadOpacityToggle: bool, keepAlpha: bool): bool
  {
    if loadOpacityToggle then false else keepAlpha
  }

  /** With the toggle on, the channel is A and keep-alpha is off whatever the
      settings say; with it off, both settings pass through. */
  lemma EffectiveSettings(toggle: bool, ch: GradientInputChannel, keep: bool)
    ensures toggle ==> EffectiveChannel(toggle, ch) == A && !EffectiveKeepAlpha(toggle, keep)
    ensures !toggle ==> EffectiveChannel(toggle, ch) == ch && EffectiveKeepAlpha(toggle, keep) == keep
  {
  }

  /** IsUsingRgbToHue: the matrix reads the RgbToHue output exactly for H, S and V. */
  function UsesRgbToHue(ch: GradientInputChannel): (b: bool)
    ensures b <==> ch in {H, S, V}
  {
    ch == H || ch == S || ch == V
  }

  /** A Matrix5x4: rows 0..3 weigh the input R, G, B, A; row 4 is the offset;
      the columns are the output R, G, B, A. */
  predicate IsMatrix5x4(m: seq<seq<real>>)
  {
    |m| == 5 && forall r :: 0 <= r < 5 ==> |m[r]| == 4
  }

  function Row(x: real): seq<real> { [x, x, x, x] }

  const ZeroMatrix: seq<seq<real>> := [Row(0.0), Row(0.0), Row(0.0), Row(0.0), Row(0.0)]

  /** Rec. 601 luma weights for the L channel. */
  const LumaR: real := 0.299
  const LumaG: real := 0.587
  const LumaB: real := 0.114

  /** The input row that carries the channel: R and H read row 0 (RgbToHue puts
      H in red), G and S row 1, B and V row 2, A row 3. */
  function SourceRow(ch: GradientInputChannel): (r: nat)
    requires ch != L
    ensures r < 4
  {
    match ch
    case R => 0
    case H => 0
    case G => 1
    case S => 1
    case B => 2
    case V => 2
    case A => 3
  }

  /** The matrix chosen for a channel. Except for L, exactly one input row is
      all ones and every other entry is zero; for L the three colour rows hold
      the luma weights, which sum to one. */
  function ChannelMatrix(ch: GradientInputChannel): (m: seq<seq<real>>)
    ensures IsMatrix5x4(m)
    ensures ch != L ==> forall r, c :: 0 <= r < 5 && 0 <= c < 4 ==>
      m[r][c] == (if r == SourceRow(ch) then 1.0 else 0.0)
    ensures ch == L ==> forall c :: 0 <= c < 4 ==>
      m[0][c] == LumaR && m[1][c] == LumaG && m[2][c] == LumaB && m[3][c] == 0.0 && m[4][c] == 0.0
    ensures LumaR + LumaG + LumaB == 1.0
  {
    if ch == L then ZeroMatrix[0 := Row(LumaR)][1 := Row(LumaG)][2 := Row(LumaB)]
    else ZeroMatrix[SourceRow(ch) := Row(1.0)]
  }

  /** Direct2D's colour matrix: output column c is r m[0][c] + g m[1][c] + b m[2][c] + a m[3][c] + m[4][c]. */
  function ApplyMatrix(m: seq<seq<real>>, px: Color): Color
    requires IsMatrix5x4(m)
  {
    Color(Column(m, px, 3), Column(m, px, 0), Column(m, px, 1), Column(m, px, 2))
  }

  function Column(m: seq<seq<real>>, px: Color, c: nat): real
    requires IsMatrix5x4(m) && c < 4
  {
    px.r * m[0][c] + px.g * m[1][c] + px.b * m[2][c] + px.a * m[3][c] + m[4][c]
  }

  /** The scalar the channel stands for, read from the pixel the matrix sees
      (the RgbToHue output for H, S and V). */
  function Extract(ch: GradientInputChannel, px: Color): real
  {
    match ch
    case R => px.r
    case H => px.r
    case G => px.g
    case S => px.g
    case B => px.b
    case V => px.b
    case A => px.a
    case L => LumaR * px.r + LumaG * px.g + LumaB * px.b
  }

  /** The matrix copies the extracted scalar into all four output channels. */
  lemma MatrixExtractsChannel(ch: GradientInputChannel, px: Color)
    ensures var x := Extract(ch, px); ApplyMatrix(ChannelMatrix(ch), px) == Color(x, x, x, x)
  {
    var m := ChannelMatrix(ch);
    if ch != L {
      var k := SourceRow(ch);
      forall c | 0 <= c < 4 ensures Column(m, px, c) == Extract(ch, px) {
        assert m[0][c] == (if k == 0 then 1.0 else 0.0);
        assert m[1][c] == (if k == 1 then 1.0 else 0.0);
        assert m[2][c] == (if k == 2 then 1.0 else 0.0);
        assert m[3][c] == (if k == 3 then 1.0 else 0.0);
        assert m[4][c] == 0.0;
      }
    }
  }

  /** For a grey pixel the luma channel gives the grey level itself. */
  lemma LumaOfGrey(px: Color)
    requires px.r == px.g == px.b
    ensures Extract(L, px) == px.r
  {
    assert LumaR * px.r + LumaG * px.r + LumaB * px.r == (LumaR + LumaG + LumaB) * px.r;
  }

  /** The weight CrossFade gives the source image: one minus the strength
      read as a percentage and clamped into [0, 1]. */
  function CrossFadeFactor(strength: real): (f: real)
    ensures InUnit(f)
    ensures strength <= 0.0 ==> f == 1.0
    ensures strength >= 100.0 ==> f == 0.0
    ensures 0.0 <= strength <= 100.0 ==> f == 1.0 - strength / 100.0
  {
    1.0 - Clamp(strength / 100.0, 0.0, 1.0)
  }

  /** More strength never gives the source image more weight. */
  lemma CrossFadeMonotone(s1: real, s2: real)
    requires s1 <= s2
    ensures CrossFadeFactor(s2) <= CrossFadeFactor(s1)
  {
  }
}

/** ColorRampMixCustomEffect.EffectImpl: the constant buffer handed to the
    mix shader, and the typed properties that read and write it. */
module Mix {
  import opened Effect

  /** The shader receives each flag as an int: 1 for true, 0 for false. */
  function BoolToInt(b: bool): (i: int)
    ensures i == 0 || i == 1
    ensures (i != 0) == b
  {
    if b then 1 else 0
  }

  /** The MixMode encoding of the buffer: 0 RGB, 1 HSL, 2 HSV (the enum's
      declaration order, read through an (int) cast). */
  function MixModeCode(m: MixColorSpace): (k: int)
    ensures 0 <= k <= 2
    ensures m == MixRGB <==> k == 0
    ensures m == MixHSL <==> k == 1
    ensures m == MixHSV <==> k == 2
  {
    match m
    case MixRGB => 0
    case MixHSL => 1
    case MixHSV => 2
  }

  /** Distinct colour spaces never share a code. */
  lemma MixModeCodeInjective(m1: MixColorSpace, m2: MixColorSpace)
    requires MixModeCode(m1) == MixModeCode(m2)
    ensures m1 == m2
  {
  }

  class EffectImpl {
    // The fields of ConstantBuffer, in layout order.
    var mixMode: int
    var keepCh1: int
    var keepCh2: int
    var keepCh3: int
    var keepAlpha: int
    var padding1: real
    var padding2: real
    var padding3: real

    /** A fresh constant buffer: every field zero. */
    constructor ()
      ensures mixMode == 0 && keepCh1 == 0 && keepCh2 == 0 && keepCh3 == 0 && keepAlpha == 0
      ensures padding1 == 0.0 && padding2 == 0.0 && padding3 == 0.0
      ensures MixMode() == 0 && !KeepCh1() && !KeepCh2() && !KeepCh3() && !KeepAlpha()
    {
      mixMode, keepCh1, keepCh2, keepCh3, keepAlpha := 0, 0, 0, 0, 0;
      padding1, padding2, padding3 := 0.0, 0.0, 0.0;
    }

    function MixMode(): int reads this { mixMode }
    function KeepCh1(): bool reads this { keepCh1 != 0 }
    function KeepCh2(): bool reads this { keepCh2 != 0 }
    function KeepCh3(): bool reads this { keepCh3 != 0 }
    function KeepAlpha(): bool reads this { keepAlpha != 0 }

    /** The MixMode setter stores the value verbatim; its frame leaves every
        other field of the buffer as it was. */
    method SetMixMode(value: int)
      modifies this`mixMode
      ensures mixMode == value && MixMode() == value
    {
      mixMode := value;
    }

    method SetKeepCh1(value: bool)
      modifies this`keepCh1
      ensures keepCh1 == BoolToInt(value) && KeepCh1() == value
    {
      keepCh1 := BoolToInt(value);
    }

    method SetKeepCh2(value: bool)
      modifies this`keepCh2
      ensures keepCh2 == BoolToInt(value) && KeepCh2() == value
    {
      keepCh2 := BoolToInt(value);
    }

    method SetKeepCh3(value: bool)
      modifies this`keepCh3
      ensures keepCh3 == BoolToInt(value) && KeepCh3() == value
    {
      keepCh3 := BoolToInt(value);
    }

    method SetKeepAlpha(value: bool)
      modifies this`keepAlpha
      ensures keepAlpha == BoolToInt(value) && KeepAlpha() == value
    {
      keepAlpha := BoolToInt(value);
    }
  }
}

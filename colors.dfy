/** `Colors.convert`: the hub-and-spoke conversion.  The input, tagged with
    its model, is turned into RGB plus one alpha value; every other model
    of the result is then derived from that RGB. */
module Colors {
  import opened ColorTypes
  import Codec = ColorsHex
  import Cyl = ColorsCylindrical
  import Cmy = ColorsCmyk
  import Cie = ColorsCie

  datatype Result<T> = Success(value: T) | Failure(error: string)

  /** The keys of the result record, `keyof ColorTypesMap`: the type of
      `convert`'s `model` argument. */
  datatype ModelKey =
    | HexKey | RgbKey | RgbaKey | HsvKey | HsvaKey | HslKey | HwbKey | CmykKey
    | LabKey | HslaKey | LchKey | XyzKey

  /** The key as the string the source switches on. */
  function KeyName(model: ModelKey): string {
    match model
    case HexKey => "hex"
    case RgbKey => "rgb"
    case RgbaKey => "rgba"
    case HsvKey => "hsv"
    case HsvaKey => "hsva"
    case HslKey => "hsl"
    case HwbKey => "hwb"
    case CmykKey => "cmyk"
    case LabKey => "lab"
    case HslaKey => "hsla"
    case LchKey => "lch"
    case XyzKey => "xyz"
  }

  /** The key that names a value's model. */
  function Tag(color: ColorValue): ModelKey {
    match color
    case HexValue(_) => HexKey
    case RgbValue(_) => RgbKey
    case RgbaValue(_) => RgbaKey
    case HsvValue(_) => HsvKey
    case HsvaValue(_) => HsvaKey
    case HslValue(_) => HslKey
    case HslaValue(_) => HslaKey
    case HwbValue(_) => HwbKey
    case CmykValue(_) => CmykKey
    case LabValue(_) => LabKey
    case LchValue(_) => LchKey
    case XyzValue(_) => XyzKey
  }

  /** What the signature of `convert` demands: the value has the shape the
      model names (`C extends ColorTypesMap[M]`), and a hex string has its
      digits where `hex2rgb` reads them. */
  predicate WellTyped(model: ModelKey, color: ColorValue) {
    Tag(color) == model &&
    (color.HexValue? ==> Codec.WellFormedHex(color.hex))
  }

  /** The alpha `convert` keeps: the input's own for RGBA and HSLA, 1 for
      every other model (hex included, whatever its alpha pair says). */
  function InputAlpha(color: ColorValue): real {
    match color
    case RgbaValue(c) => c.a
    case HslaValue(c) => c.a
    case _ => 1.0
  }

  /** The switch of `convert`: the RGB of the input and the alpha to keep,
      or the error for a model without a case. */
  function Parse(lib: Cie.MathLib, model: ModelKey, color: ColorValue): (r: Result<(Rgb, real)>)
    requires WellTyped(model, color)
    ensures r.Failure? <==> model == HsvaKey
    ensures r.Failure? ==> r.error == "Unsupported color model: " + KeyName(model)
    ensures r.Success? ==> r.value.1 == InputAlpha(color)
    ensures color.RgbValue? ==> r.value.0 == color.rgb
    ensures color.RgbaValue? ==> r.value.0 == RgbOf(color.rgba)
    ensures color.XyzValue? || color.LabValue? || color.LchValue? ==> IsChannelRgb(r.value.0)
    ensures model == HexKey ==> r.value.0 == RgbOf(Codec.HexToRgb(color.hex))
    ensures model == HsvKey ==> r.value.0 == Cyl.HsvToRgb(color.hsv)
    ensures model == HslKey ==> r.value.0 == Cyl.HslToRgb(color.hsl.h, color.hsl.s, color.hsl.l)
    ensures model == HslaKey ==> r.value.0 == Cyl.HslToRgb(color.hsla.h, color.hsla.s, color.hsla.l)
    ensures model == HwbKey ==> r.value.0 == Cyl.HwbToRgb(color.hwb)
    ensures model == CmykKey ==> r.value.0 == Cmy.CmykToRgb(color.cmyk)
    ensures model == LabKey ==> r.value.0 == Cie.LabToRgb(lib, color.lab)
    ensures model == LchKey ==> r.value.0 == Cie.LchToRgb(lib, color.lch)
    ensures model == XyzKey ==> r.value.0 == Cie.XyzToRgb(lib, color.xyz)
  {
    match model
    case HexKey => Success((RgbOf(Codec.HexToRgb(color.hex)), 1.0))
    case RgbKey => Success((color.rgb, 1.0))
    case RgbaKey => Success((Rgb(color.rgba.r, color.rgba.g, color.rgba.b), color.rgba.a))
    case HsvKey => Success((Cyl.HsvToRgb(color.hsv), 1.0))
    case HslKey => Success((Cyl.HslToRgb(color.hsl.h, color.hsl.s, color.hsl.l), 1.0))
    case HwbKey => Success((Cyl.HwbToRgb(color.hwb), 1.0))
    case CmykKey => Success((Cmy.CmykToRgb(color.cmyk), 1.0))
    case LabKey => Success((Cie.LabToRgb(lib, color.lab), 1.0))
    case LchKey => Success((Cie.LchToRgb(lib, color.lch), 1.0))
    case XyzKey => Success((Cie.XyzToRgb(lib, color.xyz), 1.0))
    case HslaKey => Success((Cyl.HslToRgb(color.hsla.h, color.hsla.s, color.hsla.l), color.hsla.a))
    case HsvaKey => Failure("Unsupported color model: " + KeyName(model))
  }

  /** The invariant of every record `convert` returns: it is the record
      derived from its own `rgb` field and the alpha of its `rgba` field. */
  predicate Consistent(lib: Cie.MathLib, m: ColorTypesMap) {
    m == Derive(lib, m.rgb, m.rgba.a)
  }

  /** The result record built from one RGB and one alpha: every field is
      the conversion of that RGB, the hex string always carries an alpha
      pair, and the three alpha-bearing records share that alpha. */
  function Derive(lib: Cie.MathLib, rgb: Rgb, alpha: real): (m: ColorTypesMap)
    ensures m.rgb == rgb && m.rgba == Rgba(rgb.r, rgb.g, rgb.b, alpha)
    ensures m.hex == Codec.RgbToHex(rgb, Some(alpha))
    ensures |m.hex| == 9 && m.hex[0] == '#' && m.hex[7..] == Codec.ComponentToHex(alpha)
    ensures m.hsv == Cyl.RgbToHsv(rgb) && m.hsva == Hsva(m.hsv.h, m.hsv.s, m.hsv.v, alpha)
    ensures m.hsl == Cyl.RgbToHsl(rgb) && m.hsla == Hsla(m.hsl.h, m.hsl.s, m.hsl.l, alpha)
    ensures m.hwb == Cyl.RgbToHwb(rgb) && m.cmyk == Cmy.RgbToCmyk(rgb)
    ensures m.lab == Cie.RgbToLab(lib, rgb) && m.lch == Cie.RgbToLch(lib, rgb)
    ensures m.xyz == Cie.RgbToXyz(lib, rgb)
  {
    var hsv := Cyl.RgbToHsv(rgb);
    var hsl := Cyl.RgbToHsl(rgb);
    ColorTypesMap(
      hex := Codec.RgbToHex(rgb, Some(alpha)),
      rgb := rgb,
      rgba := Rgba(rgb.r, rgb.g, rgb.b, alpha),
      hsv := hsv,
      hsva := Hsva(hsv.h, hsv.s, hsv.v, alpha),
      hsl := hsl,
      hwb := Cyl.RgbToHwb(rgb),
      cmyk := Cmy.RgbToCmyk(rgb),
      lab := Cie.RgbToLab(lib, rgb),
      hsla := Hsla(hsl.h, hsl.s, hsl.l, alpha),
      lch := Cie.RgbToLch(lib, rgb),
      xyz := Cie.RgbToXyz(lib, rgb))
  }

  /** `convert(model, color)`: the error for a model without a case;
      otherwise every model of the colour, with alpha 1 unless the input
      was RGBA or HSLA. */
  function Convert(lib: Cie.MathLib, model: ModelKey, color: ColorValue): (r: Result<ColorTypesMap>)
    requires WellTyped(model, color)
    ensures r.Failure? <==> model == HsvaKey
    ensures r.Failure? ==> r.error == "Unsupported color model: hsva"
    ensures r.Success? ==>
      r.value.rgba.a == InputAlpha(color) && r.value.hsva.a == InputAlpha(color) &&
      r.value.hsla.a == InputAlpha(color) && |r.value.hex| == 9 &&
      r.value.hex[7..] == Codec.ComponentToHex(InputAlpha(color))
    ensures color.RgbValue? ==> r.value.rgb == color.rgb
    ensures color.RgbaValue? ==> r.value.rgba == color.rgba
    ensures color.XyzValue? || color.LabValue? || color.LchValue? ==> IsChannelRgb(r.value.rgb)
    ensures r.Success? ==> Consistent(lib, r.value)
    ensures r.Success? ==> (r.value.rgb, r.value.rgba.a) == Parse(lib, model, color).value
  {
    match Parse(lib, model, color)
    case Failure(e) => Failure(e)
    case Success((rgb, alpha)) => Success(Derive(lib, rgb, alpha))
  }

  /** "hsva" names a field of the result but is rejected as an input. */
  lemma HsvaIsUnsupported(lib: Cie.MathLib, hsva: Hsva)
    ensures Convert(lib, HsvaKey, HsvaValue(hsva)) == Failure("Unsupported color model: hsva")
  {
  }

  /** Without an input alpha the hex string ends in "01": alpha 1 is
      written unscaled. */
  lemma OpaqueHexEndsIn01(lib: Cie.MathLib, model: ModelKey, color: ColorValue)
    requires WellTyped(model, color) && model !in {HsvaKey, RgbaKey, HslaKey}
    ensures Convert(lib, model, color).value.hex[7..] == "01"
  {
    Codec.OpaqueAlphaPair(Convert(lib, model, color).value.rgb);
  }

  /** A hex input's alpha pair is read by `hex2rgb` but not kept: the
      result is opaque, and its RGB is the parsed channels. */
  lemma HexInputDropsAlpha(lib: Cie.MathLib, hex: Hex)
    requires Codec.WellFormedHex(hex)
    ensures var m := Convert(lib, HexKey, HexValue(hex)).value;
      m.rgba.a == 1.0 && m.rgb == RgbOf(Codec.HexToRgb(hex))
  {
  }

  /** The models derived from channels in [0, 255] are in their ranges:
      hues in [0, 360), percentages in [0, 100]. */
  lemma DerivedRanges(lib: Cie.MathLib, rgb: Rgb, alpha: real)
    requires IsChannelRgb(rgb)
    ensures var m := Derive(lib, rgb, alpha);
      0.0 <= m.hsv.h < 360.0 && 0.0 <= m.hsl.h < 360.0 && 0.0 <= m.hwb.h < 360.0 &&
      0.0 <= m.hsv.s <= 100.0 && 0.0 <= m.hsv.v <= 100.0 &&
      0.0 <= m.hsl.s <= 100.0 && 0.0 <= m.hsl.l <= 100.0 &&
      0.0 <= m.hwb.w <= 100.0 && 0.0 <= m.hwb.b <= 100.0 && Cmy.InRange(m.cmyk)
  {
  }

  /** Two inputs that agree on RGB and alpha give the same record: every
      model is derived from the RGB alone (hub and spoke). */
  lemma HubAndSpoke(lib: Cie.MathLib, m1: ModelKey, c1: ColorValue, m2: ModelKey, c2: ColorValue)
    requires WellTyped(m1, c1) && WellTyped(m2, c2)
    requires Parse(lib, m1, c1).Success? && Parse(lib, m2, c2) == Parse(lib, m1, c1)
    ensures Convert(lib, m1, c1) == Convert(lib, m2, c2)
  {
  }

  /** An input that reads as the RGB and alpha of a consistent record
      converts to that record. */
  lemma ConvertsTo(lib: Cie.MathLib, model: ModelKey, color: ColorValue, m: ColorTypesMap)
    requires WellTyped(model, color) && Consistent(lib, m)
    requires Parse(lib, model, color) == Success((m.rgb, m.rgba.a))
    ensures Convert(lib, model, color) == Success(m)
  {
  }

  /** Converting the hex string of an opaque record with byte channels
      yields that same record back: its alpha pair "01" is dropped, and the
      record is rebuilt from the channels. */
  lemma HexRecordRoundTrip(lib: Cie.MathLib, m: ColorTypesMap)
    requires Consistent(lib, m) && m.rgba.a == 1.0 && IsByteRgb(m.rgb)
    ensures Codec.WellFormedHex(m.hex)
    ensures Convert(lib, HexKey, HexValue(m.hex)) == Success(m)
  {
    Codec.HexRoundTrip(m.rgb, Some(1.0));
    assert RgbOf(Codec.HexToRgb(m.hex)) == m.rgb;
    ConvertsTo(lib, HexKey, HexValue(m.hex), m);
  }

  /** Converting the HSL, HSV, HWB or CMYK of a colour yields the same
      record as converting the colour itself: the record `convert` builds
      is recovered from any of these fields (for HSL on byte channels, for
      HSV and CMYK on non-negative channels, for HWB on any channels). */
  lemma HslRecordRoundTrip(lib: Cie.MathLib, c: Rgb)
    requires IsByteRgb(c)
    ensures Convert(lib, HslKey, HslValue(Cyl.RgbToHsl(c))) == Convert(lib, RgbKey, RgbValue(c))
  {
    Cyl.HslRoundTrip(c);
    assert Parse(lib, HslKey, HslValue(Cyl.RgbToHsl(c))) == Success((c, 1.0));
    HubAndSpoke(lib, RgbKey, RgbValue(c), HslKey, HslValue(Cyl.RgbToHsl(c)));
  }

  /** Converting the HSLA of a colour with byte channels and any alpha
      yields the same record as converting its RGBA: the alpha is carried
      through both. */
  lemma HslaRecordRoundTrip(lib: Cie.MathLib, c: Rgb, alpha: real)
    requires IsByteRgb(c)
    ensures var hsl := Cyl.RgbToHsl(c);
      Convert(lib, HslaKey, HslaValue(Hsla(hsl.h, hsl.s, hsl.l, alpha))) ==
      Convert(lib, RgbaKey, RgbaValue(Rgba(c.r, c.g, c.b, alpha)))
  {
    var hsl := Cyl.RgbToHsl(c);
    Cyl.HslRoundTrip(c);
    assert Parse(lib, HslaKey, HslaValue(Hsla(hsl.h, hsl.s, hsl.l, alpha))) == Success((c, alpha));
    assert Parse(lib, RgbaKey, RgbaValue(Rgba(c.r, c.g, c.b, alpha))) == Success((c, alpha));
    HubAndSpoke(lib, RgbaKey, RgbaValue(Rgba(c.r, c.g, c.b, alpha)),
      HslaKey, HslaValue(Hsla(hsl.h, hsl.s, hsl.l, alpha)));
  }

  lemma HsvRecordRoundTrip(lib: Cie.MathLib, c: Rgb)
    requires IsNonNegativeRgb(c)
    ensures Convert(lib, HsvKey, HsvValue(Cyl.RgbToHsv(c))) == Convert(lib, RgbKey, RgbValue(c))
  {
    Cyl.HsvRoundTrip(c);
    assert Parse(lib, HsvKey, HsvValue(Cyl.RgbToHsv(c))) == Success((c, 1.0));
    HubAndSpoke(lib, RgbKey, RgbValue(c), HsvKey, HsvValue(Cyl.RgbToHsv(c)));
  }

  lemma HwbRecordRoundTrip(lib: Cie.MathLib, c: Rgb)
    ensures Convert(lib, HwbKey, HwbValue(Cyl.RgbToHwb(c))) == Convert(lib, RgbKey, RgbValue(c))
  {
    Cyl.HwbRoundTrip(c);
    assert Parse(lib, HwbKey, HwbValue(Cyl.RgbToHwb(c))) == Success((c, 1.0));
    HubAndSpoke(lib, RgbKey, RgbValue(c), HwbKey, HwbValue(Cyl.RgbToHwb(c)));
  }

  lemma CmykRecordRoundTrip(lib: Cie.MathLib, c: Rgb)
    requires IsNonNegativeRgb(c)
    ensures Convert(lib, CmykKey, CmykValue(Cmy.RgbToCmyk(c))) == Convert(lib, RgbKey, RgbValue(c))
  {
    Cmy.CmykRoundTrip(c);
    assert Parse(lib, CmykKey, CmykValue(Cmy.RgbToCmyk(c))) == Success((c, 1.0));
    HubAndSpoke(lib, RgbKey, RgbValue(c), CmykKey, CmykValue(Cmy.RgbToCmyk(c)));
  }
}

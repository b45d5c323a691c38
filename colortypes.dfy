/** The colour-model records: one value type per model, every field a
    JavaScript number, plus the record that carries every model at once. */
module ColorTypes {

  /** A field that may be absent (`undefined`). */
  datatype Option<+T> = None | Some(value: T)

  datatype Rgb = Rgb(r: real, g: real, b: real)
  datatype Rgba = Rgba(r: real, g: real, b: real, a: real)
  datatype Cmyk = Cmyk(c: real, m: real, y: real, k: real)
  datatype Hwb = Hwb(h: real, w: real, b: real)
  datatype Hsl = Hsl(h: real, s: real, l: real)
  datatype Hsla = Hsla(h: real, s: real, l: real, a: real)
  datatype Hsv = Hsv(h: real, s: real, v: real)
  datatype Hsva = Hsva(h: real, s: real, v: real, a: real)
  datatype Lab = Lab(l: real, a: real, b: real)
  datatype Lch = Lch(l: real, c: real, h: real)
  datatype Xyz = Xyz(x: real, y: real, z: real)
  type Hex = string

  /** Every model of one colour, keyed as the source's `ColorTypesMap`. */
  datatype ColorTypesMap = ColorTypesMap(
    hex: Hex, rgb: Rgb, rgba: Rgba, hsv: Hsv, hsva: Hsva, hsl: Hsl,
    hwb: Hwb, cmyk: Cmyk, lab: Lab, hsla: Hsla, lch: Lch, xyz: Xyz)

  /** A value of one of the models: what `convert` accepts as its input. */
  datatype ColorValue =
    | HexValue(hex: Hex)
    | RgbValue(rgb: Rgb)
    | RgbaValue(rgba: Rgba)
    | HsvValue(hsv: Hsv)
    | HsvaValue(hsva: Hsva)
    | HslValue(hsl: Hsl)
    | HslaValue(hsla: Hsla)
    | HwbValue(hwb: Hwb)
    | CmykValue(cmyk: Cmyk)
    | LabValue(lab: Lab)
    | LchValue(lch: Lch)
    | XyzValue(xyz: Xyz)

  /** An integral channel value in [0, 255]. */
  predicate IsByte(x: real) {
    0.0 <= x <= 255.0 && x == x.Floor as real
  }

  predicate IsByteRgb(c: Rgb) {
    IsByte(c.r) && IsByte(c.g) && IsByte(c.b)
  }

  /** Channels in [0, 255], integral or not. */
  predicate IsChannelRgb(c: Rgb) {
    0.0 <= c.r <= 255.0 && 0.0 <= c.g <= 255.0 && 0.0 <= c.b <= 255.0
  }

  predicate IsNonNegativeRgb(c: Rgb) {
    0.0 <= c.r && 0.0 <= c.g && 0.0 <= c.b
  }

  function RgbOf(c: Rgba): Rgb {
    Rgb(c.r, c.g, c.b)
  }
}

/** The CIE models of the `Colors` engine: `rgb2xyz`, `xyz2rgb`, `xyz2lab`,
    `lab2xyz`, `lab2lch`, `lch2lab` and their compositions.  They call
    `Math.pow`, `Math.sin`, `Math.cos`, `Math.atan2`, `Math.sqrt` and
    `Math.PI`; these are not modelled and arrive as a `MathLib` value, so
    every property below holds whatever those primitives compute. */
module ColorsCie {
  import opened JsMath
  import opened ColorTypes

  /** The transcendental primitives the CIE conversions call. */
  datatype MathLib = MathLib(
    pow: (real, real) -> real,
    sin: real -> real,
    cos: real -> real,
    atan2: (real, real) -> real,
    sqrt: real -> real,
    pi: Positive)

  /** `Math.PI` is some positive number; nothing else about it is used. */
  type Positive = x: real | 0.0 < x witness 1.0

  /** `Math.min(Math.max(0, x), 1)` */
  function Unit(x: real): (u: real)
    ensures 0.0 <= u <= 1.0
    ensures 0.0 <= x <= 1.0 ==> u == x
  {
    Min(Max(0.0, x), 1.0)
  }

  /** The sRGB transfer function of `rgb2xyz` on one channel fraction:
      linear below 0.04045, a 2.4 power above. */
  function Linearize(lib: MathLib, v: real): real {
    if v > 0.04045 then lib.pow((v + 0.055) / 1.055, 2.4) else v / 12.92
  }

  /** `rgb2xyz(rgb)`: linearise each channel, apply the sRGB-to-XYZ matrix,
      scale by 100. */
  function RgbToXyz(lib: MathLib, c: Rgb): (xyz: Xyz)
    ensures c == Rgb(0.0, 0.0, 0.0) ==> xyz == Xyz(0.0, 0.0, 0.0)
  {
    var r := Linearize(lib, c.r / 255.0);
    var g := Linearize(lib, c.g / 255.0);
    var b := Linearize(lib, c.b / 255.0);
    Xyz((r * 0.4124 + g * 0.3576 + b * 0.1805) * 100.0,
        (r * 0.2126 + g * 0.7152 + b * 0.0722) * 100.0,
        (r * 0.0193 + g * 0.1192 + b * 0.9505) * 100.0)
  }

  /** Dark colours (every channel at most 0.04045 of full scale) stay on the
      linear segment: their XYZ does not depend on `Math.pow`. */
  lemma DarkRgbToXyzIsRational(lib1: MathLib, lib2: MathLib, c: Rgb)
    requires c.r <= 0.04045 * 255.0 && c.g <= 0.04045 * 255.0 && c.b <= 0.04045 * 255.0
    ensures RgbToXyz(lib1, c) == RgbToXyz(lib2, c)
  {
    assert c.r / 255.0 <= 0.04045 && c.g / 255.0 <= 0.04045 && c.b / 255.0 <= 0.04045;
  }

  /** The inverse transfer function of `xyz2rgb` on one linear value: linear
      up to 0.0031308, a 1/2.4 power above. */
  function Compand(lib: MathLib, v: real): real {
    if v > 0.0031308 then 1.055 * lib.pow(v, 1.0 / 2.4) - 0.055 else v * 12.92
  }

  /** `xyz2rgb(xyz)`: apply the XYZ-to-sRGB matrix, compand, clamp each
      channel to [0, 1], scale by 255.  The clamp bounds every result,
      whatever the input and whatever `Math.pow` returns. */
  function XyzToRgb(lib: MathLib, xyz: Xyz): (c: Rgb)
    ensures IsChannelRgb(c)
    ensures xyz == Xyz(0.0, 0.0, 0.0) ==> c == Rgb(0.0, 0.0, 0.0)
  {
    var x, y, z := xyz.x / 100.0, xyz.y / 100.0, xyz.z / 100.0;
    var r := Compand(lib, x * 3.2406 + y * -1.5372 + z * -0.4986);
    var g := Compand(lib, x * -0.9689 + y * 1.8758 + z * 0.0415);
    var b := Compand(lib, x * 0.0557 + y * -0.204 + z * 1.057);
    Rgb(Unit(r) * 255.0, Unit(g) * 255.0, Unit(b) * 255.0)
  }

  /** The CIE lightness function of `xyz2lab` on one white-relative value:
      a cube root above 0.008856, linear below. */
  function LabF(lib: MathLib, t: real): real {
    if t > 0.008856 then lib.pow(t, 1.0 / 3.0) else 7.787 * t + 16.0 / 116.0
  }

  /** `xyz2lab(xyz)` (and the same steps inlined in `rgb2lab`): divide by
      the D65 white point (95.047, 100, 108.883), apply `LabF`, and take
      L = 116 fy - 16, a = 500 (fx - fy), b = 200 (fy - fz). */
  function XyzToLab(lib: MathLib, xyz: Xyz): (lab: Lab)
    ensures xyz == Xyz(0.0, 0.0, 0.0) ==> lab == Lab(0.0, 0.0, 0.0)
  {
    var fx := LabF(lib, xyz.x / 95.047);
    var fy := LabF(lib, xyz.y / 100.0);
    var fz := LabF(lib, xyz.z / 108.883);
    Lab(116.0 * fy - 16.0, 500.0 * (fx - fy), 200.0 * (fy - fz))
  }

  /** A colour proportional to the white point is achromatic: a = b = 0. */
  lemma WhitePointIsNeutral(lib: MathLib, xyz: Xyz)
    requires xyz.x / 95.047 == xyz.y / 100.0 == xyz.z / 108.883
    ensures XyzToLab(lib, xyz).a == 0.0 && XyzToLab(lib, xyz).b == 0.0
  {
  }

  /** The luminance `lab2xyz` recovers from L, with the companion value
      `y2` it uses for x and z: linear up to L = 8, a cube above. */
  function LabLuminance(lib: MathLib, l: real): (yy2: (real, real)) {
    if l <= 8.0 then
      var y := (l * 100.0) / 903.3;
      (y, 7.787 * (y / 100.0) + 16.0 / 116.0)
    else
      var y := 100.0 * lib.pow((l + 16.0) / 116.0, 3.0);
      (y, lib.pow(y / 100.0, 1.0 / 3.0))
  }

  /** `lab2xyz(lab)` as written: the tests that choose between the linear
      and the cubic branch for x and z read x and z while they are still 0,
      so the cubic branch is dead and x and z are always the linear inverse
      of `LabF`, whatever `Math.pow` computes. */
  function LabToXyz(lib: MathLib, lab: Lab): (xyz: Xyz)
    ensures xyz.y == LabLuminance(lib, lab.l).0
    ensures var y2 := LabLuminance(lib, lab.l).1;
      xyz.x * 7.787 / 95.047 + 16.0 / 116.0 == lab.a / 500.0 + y2 &&
      xyz.z * 7.787 / 108.883 + 16.0 / 116.0 == y2 - lab.b / 200.0
  {
    var (y, y2) := LabLuminance(lib, lab.l);
    var (x, z) := LabAxes(lib, lab.a, lab.b, y2, 0.0, 0.0);
    Xyz(x, y, z)
  }

  /** The x and z of `lab2xyz`, where `x0` and `z0` are the values the
      branch tests read (the variables' initial values, 0). */
  function LabAxes(lib: MathLib, a: real, b: real, y2: real, x0: real, z0: real): (xz: (real, real))
    ensures x0 == 0.0 && z0 == 0.0 ==>
      xz.0 * 7.787 / 95.047 + 16.0 / 116.0 == a / 500.0 + y2 &&
      xz.1 * 7.787 / 108.883 + 16.0 / 116.0 == y2 - b / 200.0
  {
    var x := if x0 / 95.047 <= 0.008856
      then (95.047 * (a / 500.0 + y2 - 16.0 / 116.0)) / 7.787
      else 95.047 * lib.pow(a / 500.0 + y2, 3.0);
    var z := if z0 / 108.883 <= 0.008859
      then (108.883 * (y2 - b / 200.0 - 16.0 / 116.0)) / 7.787
      else 108.883 * lib.pow(y2 - b / 200.0, 3.0);
    (x, z)
  }

  /** For L at most 8, `lab2xyz` does not call `Math.pow` at all. */
  lemma DarkLabToXyzIsRational(lib1: MathLib, lib2: MathLib, lab: Lab)
    requires lab.l <= 8.0
    ensures LabToXyz(lib1, lab) == LabToXyz(lib2, lab)
  {
  }

  /** `lch2lab(lch)`: the hue in degrees as an angle in radians; a and b are
      the chroma along its cosine and sine. */
  function LchToLab(lib: MathLib, lch: Lch): (lab: Lab)
    ensures lab.l == lch.l
    ensures lch.c == 0.0 ==> lab.a == 0.0 && lab.b == 0.0
  {
    var hr := (lch.h / 360.0) * 2.0 * lib.pi;
    Lab(lch.l, lch.c * lib.cos(hr), lch.c * lib.sin(hr))
  }

  /** `lab2lch(lab)`: the angle of (a, b) in degrees, moved into [0, 360)
      when negative, and the length of (a, b). */
  function LabToLch(lib: MathLib, lab: Lab): (lch: Lch)
    ensures lch.l == lab.l
    ensures lch.c == lib.sqrt(lab.a * lab.a + lab.b * lab.b)
    ensures -(lib.pi as real) <= lib.atan2(lab.b, lab.a) <= lib.pi ==> 0.0 <= lch.h < 360.0
  {
    var hr := lib.atan2(lab.b, lab.a);
    var h := (hr * 360.0) / 2.0 / lib.pi;
    AngleInDegrees(hr, lib.pi);
    Lch(lab.l, lib.sqrt(lab.a * lab.a + lab.b * lab.b), if h < 0.0 then h + 360.0 else h)
  }

  /** An angle in [-pi, pi] radians is in [-180, 180] degrees. */
  lemma AngleInDegrees(hr: real, pi: Positive)
    ensures -(pi as real) <= hr <= pi ==> -180.0 <= (hr * 360.0) / 2.0 / pi <= 180.0
  {
    if -(pi as real) <= hr <= pi {
      var h := (hr * 360.0) / 2.0 / pi;
      assert h * pi == hr * 180.0;
      if h > 180.0 {
        MulLt(180.0, h, pi);
      }
      if h < -180.0 {
        MulLt(h, -180.0, pi);
      }
    }
  }

  /** `lab2rgb(lab)`: through XYZ. */
  function LabToRgb(lib: MathLib, lab: Lab): (c: Rgb)
    ensures IsChannelRgb(c)
  {
    XyzToRgb(lib, LabToXyz(lib, lab))
  }

  /** `lch2rgb(lch)`: through LAB and XYZ. */
  function LchToRgb(lib: MathLib, lch: Lch): (c: Rgb)
    ensures IsChannelRgb(c)
  {
    LabToRgb(lib, LchToLab(lib, lch))
  }

  /** `rgb2lab(rgb)`: through XYZ. */
  function RgbToLab(lib: MathLib, c: Rgb): (lab: Lab)
    ensures c == Rgb(0.0, 0.0, 0.0) ==> lab == Lab(0.0, 0.0, 0.0)
  {
    XyzToLab(lib, RgbToXyz(lib, c))
  }

  /** `rgb2lch(rgb)`: through LAB. */
  function RgbToLch(lib: MathLib, c: Rgb): (lch: Lch)
    ensures lch.l == RgbToLab(lib, c).l
    ensures c == Rgb(0.0, 0.0, 0.0) ==> lch.l == 0.0 && lch.c == lib.sqrt(0.0)
  {
    LabToLch(lib, RgbToLab(lib, c))
  }

  /** The chroma of `rgb2lch` is the length of the (a, b) of `rgb2lab`, and
      its hue lies in [0, 360) whenever `Math.atan2` answers within
      [-pi, pi]. */
  lemma RgbToLchIsPolar(lib: MathLib, c: Rgb)
    ensures var lab, lch := RgbToLab(lib, c), RgbToLch(lib, c);
      lch.c == lib.sqrt(lab.a * lab.a + lab.b * lab.b) &&
      (-(lib.pi as real) <= lib.atan2(lab.b, lab.a) <= lib.pi ==> 0.0 <= lch.h < 360.0)
  {
    PolarParts(lib, RgbToLab(lib, c), RgbToLch(lib, c));
  }

  lemma PolarParts(lib: MathLib, lab: Lab, lch: Lch)
    requires lch == LabToLch(lib, lab)
    ensures lch.c == lib.sqrt(lab.a * lab.a + lab.b * lab.b)
    ensures -(lib.pi as real) <= lib.atan2(lab.b, lab.a) <= lib.pi ==> 0.0 <= lch.h < 360.0
  {
  }

  /** LCH with chroma 0 renders the same as LAB's neutral axis at the same
      lightness, whatever the hue. */
  lemma ZeroChromaIgnoresHue(lib: MathLib, l: real, h1: real, h2: real)
    ensures LchToRgb(lib, Lch(l, 0.0, h1)) == LchToRgb(lib, Lch(l, 0.0, h2))
    ensures LchToRgb(lib, Lch(l, 0.0, h1)) == LabToRgb(lib, Lab(l, 0.0, 0.0))
  {
  }
}

/** The lightweight hex / RGB / HSV pipeline behind `PrimaryConvert`:
    `toHex`, `hex2rgb`, `rgb2hex`, `rgb2hsv`, `hsv2rgb` and the dispatch
    `transformColor`.  It is independent of the `Colors` engine; the lemmas
    at the end relate its HSV formulas to that engine's. */
module MainConvert {
  import opened JsMath
  import opened ColorTypes
  import opened HexText
  import Cyl = ColorsCylindrical

  /** What the pipeline takes from the host: the canvas `fillStyle`
      normalisation of a colour name (`toHex` without a leading '#'), and
      `Number.prototype.toString(16)` of a number that is not an integer. */
  datatype Host = Host(resolve: string -> string, radixText: real -> string)

  // ---------------------------------------------------------------------
  // toHex
  // ---------------------------------------------------------------------

  predicate StartsWithHash(value: string) {
    |value| > 0 && value[0] == '#'
  }

  /** `toHex(value)`: a string without '#' goes to the host's resolver; a
      '#'-shorthand of length 4 or 5 has each digit doubled; length 7 or 9
      is kept; any other '#'-string becomes "#000000". */
  function ToHex(host: Host, value: string): (hex: string)
    ensures StartsWithHash(value) ==> StartsWithHash(hex) && (|hex| == 7 || |hex| == 9)
    ensures StartsWithHash(value) && (|value| == 7 || |value| == 9) ==> hex == value
    ensures StartsWithHash(value) && !(|value| in {4, 5, 7, 9}) ==> hex == "#000000"
  {
    if !StartsWithHash(value) then host.resolve(value)
    else if |value| == 4 || |value| == 5 then "#" + DoubleEach(value[1..])
    else if |value| == 7 || |value| == 9 then value
    else "#000000"
  }

  /** `v + v` for every character: each character written twice. */
  function DoubleEach(s: string): (d: string)
    ensures |d| == 2 * |s|
    ensures forall i :: 0 <= i < |s| ==> d[2 * i] == s[i] && d[2 * i + 1] == s[i]
  {
    if s == [] then []
    else
      var rest := DoubleEach(s[1..]);
      var d := [s[0], s[0]] + rest;
      assert forall i :: 1 <= i < |s| ==> d[2 * i] == rest[2 * (i - 1)] && d[2 * i + 1] == rest[2 * (i - 1) + 1];
      d
  }

  /** The shorthand `#rgb` / `#rgba` becomes `#rrggbb` / `#rrggbbaa`: the
      digit after position 0 at index i lands at positions 2i + 1 and 2i + 2. */
  lemma ToHexDoublesShorthand(host: Host, value: string, i: int)
    requires StartsWithHash(value) && (|value| == 4 || |value| == 5)
    requires 1 <= i < |value|
    ensures var hex := ToHex(host, value);
      |hex| == 2 * |value| - 1 && hex[2 * i - 1] == value[i] && hex[2 * i] == value[i]
  {
    var d := DoubleEach(value[1..]);
    assert d[2 * (i - 1)] == value[i] && d[2 * (i - 1) + 1] == value[i];
  }

  /** `toHex` changes nothing the second time on a '#'-string. */
  lemma ToHexIdempotent(host: Host, value: string)
    requires StartsWithHash(value)
    ensures ToHex(host, ToHex(host, value)) == ToHex(host, value)
  {
  }

  // ---------------------------------------------------------------------
  // hex2rgb
  // ---------------------------------------------------------------------

  /** The strings `/^#?([a-f\d])([a-f\d])([a-f\d])$/i` matches: three
      hexadecimal digits of either case, with or without a leading '#'. */
  predicate IsShortForm(hex: string) {
    (|hex| == 4 && hex[0] == '#' && AllHex(hex[1..])) || (|hex| == 3 && AllHex(hex))
  }

  /** The `replace` step of `hex2rgb`: a short form becomes '#' and its three
      digits doubled; every other string is left alone. */
  function Expand(hex: string): (e: string)
    ensures IsShortForm(hex) ==> |e| == 7 && e[0] == '#'
    ensures IsShortForm(hex) ==> var d := hex[|hex| - 3..];
      e[1] == e[2] == d[0] && e[3] == e[4] == d[1] && e[5] == e[6] == d[2]
    ensures !IsShortForm(hex) ==> e == hex
  {
    if IsShortForm(hex) then
      var d := hex[|hex| - 3..];
      ['#', d[0], d[0], d[1], d[1], d[2], d[2]]
    else hex
  }

  /** After expansion, the six characters after the first are hexadecimal
      digits, so the first three pairs `match(/.{2}/g)` finds parse to
      numbers.  The first character is dropped unread. */
  predicate Decodable(hex: string) {
    var e := Expand(hex);
    |e| >= 7 && AllHex(e[1..7])
  }

  /** `hex2rgb(hex)`: drop the first character of the expanded string and
      read the first three pairs as base-16 numbers. */
  function HexToRgb(hex: string): (c: Rgb)
    requires Decodable(hex)
    ensures IsByteRgb(c)
  {
    var s := Expand(hex)[1..7];
    PairBounds(s[0..2]);
    PairBounds(s[2..4]);
    PairBounds(s[4..6]);
    Rgb(ParseHex(s[0..2]) as real, ParseHex(s[2..4]) as real, ParseHex(s[4..6]) as real)
  }

  /** Two hexadecimal digits denote a value below 256. */
  lemma PairBounds(s: string)
    requires |s| == 2 && AllHex(s)
    ensures ParseHex(s) < 256
  {
    ParseHexPair(s);
  }

  /** `hex2rgb` reads a short form, with or without its '#', as the doubled
      six-digit form: "#abc", "abc" and "#aabbcc" are the same colour. */
  lemma ShortFormIsDoubled(x: char, y: char, z: char)
    requires IsHexDigit(x) && IsHexDigit(y) && IsHexDigit(z)
    ensures IsShortForm(['#', x, y, z]) && IsShortForm([x, y, z])
    ensures Decodable(['#', x, y, z]) && Decodable([x, y, z]) && Decodable(['#', x, x, y, y, z, z])
    ensures HexToRgb(['#', x, y, z]) == HexToRgb(['#', x, x, y, y, z, z])
    ensures HexToRgb([x, y, z]) == HexToRgb(['#', x, x, y, y, z, z])
  {
    var long := ['#', x, x, y, y, z, z];
    assert ['#', x, y, z][1..] == [x, y, z];
    assert Expand(['#', x, y, z]) == long;
    assert Expand([x, y, z]) == long;
    assert !IsShortForm(long);
  }

  /** `toHex` followed by `hex2rgb` reads a '#' shorthand as `hex2rgb` alone
      does: the two expansions agree. */
  lemma ToHexKeepsShortFormColour(host: Host, x: char, y: char, z: char)
    requires IsHexDigit(x) && IsHexDigit(y) && IsHexDigit(z)
    ensures Decodable(ToHex(host, ['#', x, y, z]))
    ensures HexToRgb(ToHex(host, ['#', x, y, z])) == HexToRgb(['#', x, y, z])
  {
    var hex := ['#', x, y, z];
    assert hex[1..] == [x, y, z];
    assert DoubleEach([x, y, z]) == [x, x, y, y, z, z] by {
      assert DoubleEach([z]) == [z, z] by { assert [z][1..] == []; }
      assert [y, z][1..] == [z];
      assert [x, y, z][1..] == [y, z];
    }
    assert ToHex(host, hex) == ['#', x, x, y, y, z, z];
    ShortFormIsDoubled(x, y, z);
  }

  // ---------------------------------------------------------------------
  // rgb2hex
  // ---------------------------------------------------------------------

  /** `x.toString(16)`: the digits of an integer (with a minus sign when
      negative); the text of any other number comes from the host. */
  function RadixText(host: Host, x: real): (s: string)
    ensures 0.0 <= x && IsInteger(x) ==> AllLowerHex(s) && 1 <= |s| && ParseHex(s) == x.Floor
  {
    if IsInteger(x) && 0.0 <= x then ToHexString(x.Floor)
    else if IsInteger(x) then "-" + ToHexString((-x).Floor)
    else host.radixText(x)
  }

  /** `s.padStart(2, "0")` */
  function PadStart2(s: string): (p: string)
    ensures |s| >= 2 ==> p == s
    ensures |s| < 2 ==> |p| == 2 && p[2 - |s|..] == s && forall i :: 0 <= i < 2 - |s| ==> p[i] == '0'
  {
    if |s| >= 2 then s else if |s| == 1 then "0" + s else "00"
  }

  /** The two-digit pair `rgb2hex` writes for a byte. */
  lemma PairOfByte(host: Host, x: real)
    requires IsByte(x)
    ensures var p := PadStart2(RadixText(host, x));
      |p| == 2 && AllLowerHex(p) && AllHex(p) && ParseHex(p) as real == x
  {
    var s := RadixText(host, x);
    var n := x.Floor;
    assert |s| == 1 <==> n < 16;
    if |s| == 1 {
      var p := "0" + s;
      ParseHexDigit(s);
      ParseHexPair(p);
    }
  }

  /** `rgb2hex(rgb)`: '#' and each channel's `toString(16)` padded to two
      characters, red first.  Alpha is not written. */
  function RgbToHex(host: Host, c: Rgb): (hex: string)
    ensures |hex| >= 1 && hex[0] == '#'
  {
    "#" + PadStart2(RadixText(host, c.r)) + PadStart2(RadixText(host, c.g)) +
      PadStart2(RadixText(host, c.b))
  }

  /** For byte channels `rgb2hex` writes '#' and three lower-case digit
      pairs, and `hex2rgb` reads the same channels back. */
  lemma HexRoundTrip(host: Host, c: Rgb)
    requires IsByteRgb(c)
    ensures var hex := RgbToHex(host, c);
      |hex| == 7 && AllLowerHex(hex[1..]) && Decodable(hex) && HexToRgb(hex) == c
  {
    var x, y, z := PadStart2(RadixText(host, c.r)), PadStart2(RadixText(host, c.g)),
      PadStart2(RadixText(host, c.b));
    PairOfByte(host, c.r);
    PairOfByte(host, c.g);
    PairOfByte(host, c.b);
    var hex := "#" + x + y + z;
    assert RgbToHex(host, c) == hex;
    ThreePairs(x, y, z);
    assert !IsShortForm(hex);
  }

  /** Where the three pairs of '#' + x + y + z sit after the first
      character. */
  lemma ThreePairs(x: string, y: string, z: string)
    requires |x| == 2 && |y| == 2 && |z| == 2
    ensures var s := ("#" + x + y + z)[1..7];
      s[0..2] == x && s[2..4] == y && s[4..6] == z
  {
    assert ("#" + x + y + z)[1..7] == x + y + z;
  }

  // ---------------------------------------------------------------------
  // rgb2hsv and hsv2rgb
  // ---------------------------------------------------------------------

  /** The hue `rgb2hsv` computes from channel fractions: the sector offset
      of the largest channel plus the signed distance of the other two, 6
      added when red is largest and green is below blue, times 60. */
  function Hue(r: real, g: real, b: real): real {
    var mx := Max3(r, g, b);
    var d := mx - Min3(r, g, b);
    if d == 0.0 then 0.0
    else if mx == r then ((g - b) / d + (if g < b then 6.0 else 0.0)) * 60.0
    else if mx == g then (2.0 + (b - r) / d) * 60.0
    else (4.0 + (r - g) / d) * 60.0
  }

  /** `rgb2hsv(rgb)`: channels as fractions of 255; saturation is the chroma
      over the largest fraction (0 when that is 0), value the largest
      fraction, both in percent. */
  function RgbToHsv(c: Rgb): (hsv: Hsv)
    ensures Min3(c.r, c.g, c.b) == Max3(c.r, c.g, c.b) ==> hsv.h == 0.0 && hsv.s == 0.0
    ensures Max3(c.r, c.g, c.b) == 0.0 ==> hsv.s == 0.0 && hsv.v == 0.0
  {
    var r, g, b := c.r / 255.0, c.g / 255.0, c.b / 255.0;
    var mx := Max3(r, g, b);
    var d := mx - Min3(r, g, b);
    Hsv(Hue(r, g, b), if mx != 0.0 then (d / mx) * 100.0 else 0.0, mx * 100.0)
  }

  /** The hue formula of this pipeline (6 added for red-largest,
      green-below-blue) is the hue of the `Colors` engine (360 added to a
      negative angle). */
  lemma HueAgrees(r: real, g: real, b: real)
    ensures Hue(r, g, b) == Cyl.HueOf(r, g, b)
  {
    var mx, mn := Max3(r, g, b), Min3(r, g, b);
    var d := mx - mn;
    if d != 0.0 {
      if mx == r {
        Cyl.RatioBounds(g - b, d);
        if g < b {
          assert (g - b) / d * d == g - b;
          assert (g - b) / d < 0.0;
        }
      } else if mx == g {
        Cyl.RatioBounds(b - r, d);
      } else {
        Cyl.RatioBounds(r - g, d);
      }
    }
  }

  /** `rgb2hsv` of this pipeline agrees with `rgb2hsv` of the `Colors`
      engine on every colour (over exact reals). */
  lemma RgbToHsvAgrees(c: Rgb)
    ensures RgbToHsv(c) == Cyl.RgbToHsv(c)
  {
    var r, g, b := c.r / 255.0, c.g / 255.0, c.b / 255.0;
    HueAgrees(r, g, b);
    Cyl.HueScaleInvariant(c.r, c.g, c.b);
    var mn, mx := Min3(c.r, c.g, c.b), Max3(c.r, c.g, c.b);
    Cyl.FractionExtremes(c.r, c.g, c.b);
    SaturationAgrees(mn, mx, Max3(r, g, b), Max3(r, g, b) - Min3(r, g, b));
  }

  /** The saturation of this pipeline, on fractions, is that of the
      `Colors` engine, on raw channels. */
  lemma SaturationAgrees(mn: real, mx: real, mx1: real, d1: real)
    requires mx1 == mx / 255.0 && d1 == (mx - mn) / 255.0
    ensures (if mx1 != 0.0 then (d1 / mx1) * 100.0 else 0.0) == Cyl.HsvSaturation(mn, mx)
  {
    if mx != 0.0 {
      Cyl.RatioScale(d1, mx1, mx - mn, mx, 255.0);
    }
  }

  /** Hue in [0, 360); for channels in [0, 255], saturation and value in
      [0, 100]. */
  lemma RgbToHsvRanges(c: Rgb)
    ensures 0.0 <= RgbToHsv(c).h < 360.0
    ensures IsChannelRgb(c) ==> 0.0 <= RgbToHsv(c).s <= 100.0 && 0.0 <= RgbToHsv(c).v <= 100.0
  {
    RgbToHsvAgrees(c);
  }

  /** The table lookups `[v, q, p, p, t, v][index]` (red),
      `[t, v, v, q, p, p][index]` (green) and `[p, p, t, v, v, q][index]`
      (blue) for an index in 0..5. */
  function Table(index: int, v: real, p: real, q: real, t: real): Rgb
    requires 0 <= index < 6
  {
    if index == 0 then Rgb(v, t, p)
    else if index == 1 then Rgb(q, v, p)
    else if index == 2 then Rgb(p, v, t)
    else if index == 3 then Rgb(p, q, v)
    else if index == 4 then Rgb(t, p, v)
    else Rgb(v, p, q)
  }

  /** The sector index `~~(h / 60) % 6` (JavaScript truncation and
      remainder: negative for some negative hues). */
  function SectorIndex(h: real): (index: int)
    ensures -6 < index < 6
    ensures 0.0 <= h ==> index == (h / 60.0).Floor % 6
  {
    RemInt(Trunc(h / 60.0), 6)
  }

  /** How far through its sector a hue lies: `h / 60 - ~~(h / 60)`. */
  function SectorFraction(h: real): real {
    h / 60.0 - Trunc(h / 60.0) as real
  }

  /** `hsv2rgb(hsv)`: the table entry of the sector, each channel times 255
      and rounded with `Math.round`.  A negative sector index reads past the
      tables and gives NaN channels, modelled as `None`. */
  function HsvToRgb(hsv: Hsv): (c: Option<Rgb>)
    ensures c.None? <==> SectorIndex(hsv.h) < 0
    ensures 0.0 <= hsv.h ==> c.Some?
    ensures c.Some? ==> IsInteger(c.value.r) && IsInteger(c.value.g) && IsInteger(c.value.b)
  {
    var index := SectorIndex(hsv.h);
    if index < 0 then None
    else Some(RoundRgb(Scaled(index, SectorFraction(hsv.h), hsv.s / 100.0, hsv.v / 100.0)))
  }

  /** The table entry for sector `index` at fraction `f`, with saturation
      and value as fractions, scaled to 255: `p = v (1 - s)`,
      `q = v (1 - s f)`, `t = v (1 - s (1 - f))`. */
  function Scaled(index: int, f: real, s: real, v: real): Rgb
    requires 0 <= index < 6
  {
    var x := Table(index, v, v * (1.0 - s), v * (1.0 - s * f), v * (1.0 - s * (1.0 - f)));
    Rgb(x.r * 255.0, x.g * 255.0, x.b * 255.0)
  }

  /** Zero saturation gives a grey. */
  lemma GreyOfZeroSaturation(hsv: Hsv)
    requires hsv.s == 0.0 && HsvToRgb(hsv).Some?
    ensures HsvToRgb(hsv).value.r == HsvToRgb(hsv).value.g == HsvToRgb(hsv).value.b
  {
    var index, v := SectorIndex(hsv.h), hsv.v / 100.0;
    assert HsvToRgb(hsv) == Some(RoundRgb(Scaled(index, SectorFraction(hsv.h), 0.0, v)));
    assert Scaled(index, SectorFraction(hsv.h), 0.0, v) == Rgb(v * 255.0, v * 255.0, v * 255.0);
  }

  /** Each channel rounded with `Math.round`. */
  function RoundRgb(c: Rgb): Rgb {
    Rgb(Round(c.r) as real, Round(c.g) as real, Round(c.b) as real)
  }

  /** For any non-negative hue, `hsv2rgb` of this pipeline is `hsv2rgb` of
      the `Colors` engine with every channel rounded. */
  lemma HsvToRgbAgrees(hsv: Hsv)
    requires 0.0 <= hsv.h
    ensures HsvToRgb(hsv) == Some(RoundRgb(Cyl.HsvToRgb(hsv)))
  {
    var s, v := hsv.s / 100.0, hsv.v / 100.0;
    var k, f := RemInt(Cyl.HueSector(hsv.h), 6), Cyl.HueFraction(hsv.h);
    SectorAgrees(hsv.h);
    assert HsvToRgb(hsv) == Some(RoundRgb(Scaled(k, f, s, v)));
    assert Cyl.HsvToRgb(hsv) == Cyl.HsvCandidates(k, f, s, 255.0 * v);
    TableScales(k, v, s, f);
  }

  /** On a non-negative hue truncation is the floor, so the sector index
      and the fraction are those of the `Colors` engine, 360 and beyond
      included. */
  lemma SectorAgrees(h: real)
    requires 0.0 <= h
    ensures SectorIndex(h) == RemInt(Cyl.HueSector(h), 6) && SectorFraction(h) == Cyl.HueFraction(h)
    ensures 0 <= SectorIndex(h) < 6 && 0.0 <= Cyl.HueFraction(h) < 1.0
  {
    Cyl.SectorOfNonNegativeHue(h);
  }

  /** The fraction tables times 255 are the `Colors` engine's switch on
      `255 * v`. */
  lemma TableScales(k: int, v: real, s: real, f: real)
    requires 0 <= k < 6 && 0.0 <= f < 1.0
    ensures Scaled(k, f, s, v) == Cyl.HsvCandidates(k, f, s, 255.0 * v)
  {
    var top := 255.0 * v;
    assert v * (1.0 - s) * 255.0 == top * (1.0 - s);
    assert v * (1.0 - s * f) * 255.0 == top * (1.0 - s * f);
    assert v * (1.0 - s * (1.0 - f)) * 255.0 == top * (1.0 - s * (1.0 - f));
  }

  /** For a non-negative hue and saturation and value in [0, 100], the
      channels are bytes. */
  lemma HsvToRgbBytes(hsv: Hsv)
    requires 0.0 <= hsv.h && 0.0 <= hsv.s <= 100.0 && 0.0 <= hsv.v <= 100.0
    ensures HsvToRgb(hsv).Some? && IsByteRgb(HsvToRgb(hsv).value)
  {
    HsvToRgbAgrees(hsv);
    var c := Cyl.HsvToRgb(hsv);
    RoundedByte(c.r);
    RoundedByte(c.g);
    RoundedByte(c.b);
  }

  /** `Math.round` keeps [0, 255] and yields an integer. */
  lemma RoundedByte(x: real)
    requires 0.0 <= x <= 255.0
    ensures IsByte(Round(x) as real)
  {
    RoundMonotone(0.0, x);
    RoundMonotone(x, 255.0);
    RoundOfInteger(0);
    RoundOfInteger(255);
  }

  // ---------------------------------------------------------------------
  // transformColor
  // ---------------------------------------------------------------------

  /** The format tag and its colour.  `Other` stands for any tag outside
      "hex", "rgb" and "hsv", which the types rule out but the code
      handles. */
  datatype ColorInput = HexInput(hex: string) | RgbInput(rgb: Rgb) | HsvInput(hsv: Hsv) | Other

  /** The `{ hex, hsv, rgb }` result.  `None` stands for a record in which
      some field is NaN or undefined: "#12" reads as r = 18 with g and b
      undefined, and the hsv of an unreadable hex is h = 0, s = 0, v = NaN. */
  datatype KeyMaps = KeyMaps(hex: string, rgb: Option<Rgb>, hsv: Option<Hsv>)

  /** The text `rgb2hex` writes when every channel is NaN. */
  const NaNHex: string := "#NaNNaNNaN"

  /** `hex2rgb` where it yields numbers; `None` otherwise. */
  function ReadHex(hex: string): (c: Option<Rgb>)
    ensures c.Some? <==> Decodable(hex)
    ensures c.Some? ==> IsByteRgb(c.value)
  {
    if Decodable(hex) then Some(HexToRgb(hex)) else None
  }

  /** The triple derived from a hex string: `rgb` read from it, `hsv` from
      that. */
  function FromHex(hex: string): (m: KeyMaps)
    ensures m.hex == hex && m.rgb == ReadHex(hex)
    ensures m.rgb.Some? <==> m.hsv.Some?
  {
    var rgb := ReadHex(hex);
    KeyMaps(hex, rgb, if rgb.Some? then Some(RgbToHsv(rgb.value)) else None)
  }

  /** The triple `transformColor` starts from: everything derived from
      `toHex("#121212")`. */
  function Default(host: Host): KeyMaps {
    FromHex(ToHex(host, "#121212"))
  }

  /** `transformColor(format, color)` (which `PrimaryConvert` calls): the
      given model is kept and the other two derived from it; any other tag
      yields the default triple, with no error. */
  function TransformColor(host: Host, input: ColorInput): (m: KeyMaps)
    ensures input.HexInput? ==> m.hex == ToHex(host, input.hex) && m.rgb == ReadHex(m.hex)
    ensures input.HexInput? ==> (m.rgb.Some? <==> m.hsv.Some?)
    ensures input.RgbInput? ==> m.rgb == Some(input.rgb) && m.hsv == Some(RgbToHsv(input.rgb))
    ensures input.RgbInput? ==> m.hex == RgbToHex(host, input.rgb)
    ensures input.HsvInput? ==> m.hsv == Some(input.hsv) && m.rgb == HsvToRgb(input.hsv)
    ensures input.HsvInput? && m.rgb.Some? ==> m.hex == RgbToHex(host, m.rgb.value)
    ensures input.HsvInput? && m.rgb.None? ==> m.hex == NaNHex
    ensures input.Other? ==> m == Default(host)
    ensures m.rgb.Some? && m.hsv.Some? && !input.HsvInput? ==> m.hsv.value == RgbToHsv(m.rgb.value)
  {
    match input
    case HexInput(value) => FromHex(ToHex(host, value))
    case RgbInput(rgb) => KeyMaps(RgbToHex(host, rgb), Some(rgb), Some(RgbToHsv(rgb)))
    case HsvInput(hsv) =>
      var rgb := HsvToRgb(hsv);
      KeyMaps(if rgb.Some? then RgbToHex(host, rgb.value) else NaNHex, rgb, Some(hsv))
    case Other => Default(host)
  }

  /** The default triple is "#121212", rgb(18, 18, 18), and hue 0,
      saturation 0, value 18 / 255 in percent. */
  lemma DefaultIs121212(host: Host)
    ensures Default(host) == KeyMaps("#121212", Some(Rgb(18.0, 18.0, 18.0)),
      Some(Hsv(0.0, 0.0, 18.0 / 255.0 * 100.0)))
  {
    ReadOf121212();
    assert RgbToHsv(Rgb(18.0, 18.0, 18.0)).v == 18.0 / 255.0 * 100.0;
  }

  /** `hex2rgb("#121212")` is rgb(18, 18, 18). */
  lemma ReadOf121212()
    ensures ReadHex("#121212") == Some(Rgb(18.0, 18.0, 18.0))
  {
    var hex := "#121212";
    assert !IsShortForm(hex);
    ThreePairs("12", "12", "12");
    assert "#" + "12" + "12" + "12" == hex;
    ParseHexPair("12");
  }

  /** The documented example: converting "#121212" from hex gives the same
      triple as the fallback. */
  lemma HexOf121212IsDefault(host: Host)
    ensures TransformColor(host, HexInput("#121212")) == Default(host)
  {
  }

  /** The triple built from a byte colour is a fixed point: converting its
      hex back gives the same triple. */
  lemma RgbTripleIsConsistent(host: Host, c: Rgb)
    requires IsByteRgb(c)
    ensures var m := TransformColor(host, RgbInput(c));
      TransformColor(host, HexInput(m.hex)) == m
  {
    HexRoundTrip(host, c);
    var hex := RgbToHex(host, c);
    assert ToHex(host, hex) == hex;
  }

  /** For a non-negative hue and saturation and value in [0, 100], the
      triple built from HSV holds byte channels whose hex reads back as
      those channels. */
  lemma HsvTripleIsConsistent(host: Host, hsv: Hsv)
    requires 0.0 <= hsv.h && 0.0 <= hsv.s <= 100.0 && 0.0 <= hsv.v <= 100.0
    ensures var m := TransformColor(host, HsvInput(hsv));
      m.rgb.Some? && IsByteRgb(m.rgb.value) && Decodable(m.hex) && HexToRgb(m.hex) == m.rgb.value
  {
    HsvToRgbBytes(hsv);
    HexRoundTrip(host, HsvToRgb(hsv).value);
  }
}

/** The cylindrical models of the `Colors` engine: `rgb2hsv`, `hsv2rgb`,
    `rgb2hsl`, `hsl2rgb`, `hsv2hsl`, `hsl2hsv`, `rgb2hwb` and `hwb2rgb`. */
module ColorsCylindrical {
  import opened JsMath
  import opened ColorTypes

  /** The hue in degrees that `rgb2hsv` and `rgb2hsl` compute from three
      channels: which channel is largest picks the sector, the other two
      place the hue inside it; a grey has hue 0. */
  function HueOf(r: real, g: real, b: real): (h: real)
    ensures 0.0 <= h < 360.0
    ensures Min3(r, g, b) == Max3(r, g, b) ==> h == 0.0
  {
    var mn, mx := Min3(r, g, b), Max3(r, g, b);
    var delta := mx - mn;
    var sector :=
      if mx == mn then 0.0
      else if r == mx then (RatioBounds(g - b, delta); (g - b) / delta)
      else if g == mx then (RatioBounds(b - r, delta); 2.0 + (b - r) / delta)
      // the source tests `b == max` here, which holds whenever it is reached
      else (RatioBounds(r - g, delta); 4.0 + (r - g) / delta);
    var degrees := Min(sector * 60.0, 360.0);
    if degrees < 0.0 then degrees + 360.0 else degrees
  }

  /** A difference no larger than `d` over `d` lies in [-1, 1]. */
  lemma RatioBounds(n: real, d: real)
    requires 0.0 < d && -d <= n <= d
    ensures -1.0 <= n / d <= 1.0 && n / d * d == n
    ensures 0.0 <= n ==> 0.0 <= n / d
  {
    var t := n / d;
    assert t * d == n;
    if t < 0.0 && 0.0 <= n { MulLt(t, 0.0, d); }
    if t > 1.0 { MulLt(1.0, t, d); }
    if t < -1.0 { MulLt(t, -1.0, d); }
  }

  lemma RatioBelowOne(n: real, d: real)
    requires 0.0 < d && n < d
    ensures n / d < 1.0
  {
    assert n / d * d == n;
  }

  /** The 60-degree sector a hue in [0, 360) falls in. */
  function HueSector(h: real): int {
    (h / 60.0).Floor
  }

  /** How far through its sector a hue lies, from 0 up to (not including) 1. */
  function HueFraction(h: real): real {
    h / 60.0 - HueSector(h) as real
  }

  /** A hue in [0, 360) falls in one of the six sectors, which JavaScript's
      remainder by 6 leaves unchanged. */
  lemma SectorOfHue(h: real)
    requires 0.0 <= h < 360.0
    ensures 0 <= HueSector(h) < 6 && 0.0 <= HueFraction(h) < 1.0
    ensures RemInt(HueSector(h), 6) == HueSector(h)
  {
  }

  /** Any non-negative hue, 360 and beyond included, has a sector whose
      remainder by 6 picks one of the six cases of `hsv2rgb`, at a fraction
      in [0, 1). */
  lemma SectorOfNonNegativeHue(h: real)
    requires 0.0 <= h
    ensures 0 <= RemInt(HueSector(h), 6) < 6 && 0.0 <= HueFraction(h) < 1.0
  {
  }

  /** The channels of a colour whose hue lies at fraction `f` through sector
      `k`, with smallest channel `lo` and largest `hi`: the six-sector
      reading of a hue that every inverse conversion performs. */
  function SectorColor(k: int, f: real, lo: real, hi: real): Rgb {
    var d := hi - lo;
    if k == 0 then Rgb(hi, lo + f * d, lo)
    else if k == 1 then Rgb(lo + (1.0 - f) * d, hi, lo)
    else if k == 2 then Rgb(lo, hi, lo + f * d)
    else if k == 3 then Rgb(lo, lo + (1.0 - f) * d, hi)
    else if k == 4 then Rgb(lo + f * d, lo, hi)
    else Rgb(hi, lo, lo + (1.0 - f) * d)
  }

  /** Hue, smallest and largest channel determine a colour: the channels
      are the sector reading of the hue `HueOf` computes.  This is what
      makes every cylindrical model invertible. */
  lemma HueDeterminesChannels(r: real, g: real, b: real)
    ensures SectorReading(r, g, b)
  {
    var mn, mx := Min3(r, g, b), Max3(r, g, b);
    if mx == mn {
      var h := HueOf(r, g, b);
      assert h == 0.0 && HueSector(h) == 0 && HueFraction(h) == 0.0;
    } else if r == mx {
      RedLargest(r, g, b);
    } else if g == mx {
      GreenLargest(r, g, b);
    } else {
      BlueLargest(r, g, b);
    }
  }

  /** The conclusion of `HueDeterminesChannels`. */
  predicate SectorReading(r: real, g: real, b: real) {
    var h := HueOf(r, g, b);
    0 <= HueSector(h) < 6 && 0.0 <= HueFraction(h) < 1.0 &&
    Rgb(r, g, b) == SectorColor(HueSector(h), HueFraction(h), Min3(r, g, b), Max3(r, g, b))
  }

  lemma RedLargest(r: real, g: real, b: real)
    requires Min3(r, g, b) < Max3(r, g, b) == r
    ensures SectorReading(r, g, b)
  {
    var mn, mx := Min3(r, g, b), Max3(r, g, b);
    var d := mx - mn;
    var h := HueOf(r, g, b);
    RatioBounds(g - b, d);
    var t := (g - b) / d;
    assert h == if t < 0.0 then t * 60.0 + 360.0 else t * 60.0;
    if g >= b {
      assert b == mn;
      if t < 1.0 {
        assert HueSector(h) == 0 && HueFraction(h) == t;
        assert HueFraction(h) * d == g - b;
      } else {
        assert HueSector(h) == 1 && HueFraction(h) == 0.0;
        assert g == mx;
      }
    } else {
      assert g == mn;
      assert HueSector(h) == 5 && HueFraction(h) == t + 1.0;
      assert (1.0 - HueFraction(h)) * d == b - g;
    }
  }

  lemma GreenLargest(r: real, g: real, b: real)
    requires Min3(r, g, b) < Max3(r, g, b) == g != r
    ensures SectorReading(r, g, b)
  {
    var mn, mx := Min3(r, g, b), Max3(r, g, b);
    var d := mx - mn;
    var h := HueOf(r, g, b);
    RatioBounds(b - r, d);
    var t := (b - r) / d;
    assert h == (2.0 + t) * 60.0;
    if b >= r {
      assert r == mn;
      if t < 1.0 {
        assert HueSector(h) == 2 && HueFraction(h) == t;
        assert HueFraction(h) * d == b - r;
      } else {
        assert HueSector(h) == 3 && HueFraction(h) == 0.0;
        assert b == mx;
      }
    } else {
      assert b == mn;
      assert HueSector(h) == 1 && HueFraction(h) == t + 1.0;
      assert (1.0 - HueFraction(h)) * d == r - b;
    }
  }

  lemma BlueLargest(r: real, g: real, b: real)
    requires Min3(r, g, b) < Max3(r, g, b) == b && r != b && g != b
    ensures SectorReading(r, g, b)
  {
    var mn, mx := Min3(r, g, b), Max3(r, g, b);
    var d := mx - mn;
    var h := HueOf(r, g, b);
    RatioBounds(r - g, d);
    var t := (r - g) / d;
    assert h == (4.0 + t) * 60.0;
    if r >= g {
      assert g == mn;
      RatioBelowOne(r - g, d);
      assert HueSector(h) == 4 && HueFraction(h) == t;
      assert HueFraction(h) * d == r - g;
    } else {
      assert r == mn;
      assert HueSector(h) == 3 && HueFraction(h) == t + 1.0;
      assert (1.0 - HueFraction(h)) * d == g - r;
    }
  }

  /** `rgb2hsv(rgb)` of the `Colors` engine: hue in degrees, saturation
      and value in percent (value relative to 255). */
  function RgbToHsv(c: Rgb): (hsv: Hsv)
    ensures 0.0 <= hsv.h < 360.0
    ensures IsNonNegativeRgb(c) ==> 0.0 <= hsv.s <= 100.0 && 0.0 <= hsv.v
    ensures c.r <= 255.0 && c.g <= 255.0 && c.b <= 255.0 ==> hsv.v <= 100.0
    ensures c.r == c.g == c.b ==> hsv.h == 0.0 && hsv.s == 0.0
  {
    var mn, mx := Min3(c.r, c.g, c.b), Max3(c.r, c.g, c.b);
    var v := ((mx / 255.0) * 1000.0) / 10.0;
    Hsv(HueOf(c.r, c.g, c.b), HsvSaturation(mn, mx), v)
  }

  /** The saturation in percent `rgb2hsv` computes from the smallest and
      largest raw channel (0 when the largest is 0): for non-negative
      channels, saturation as a fraction times the largest channel is the
      chroma `max - min`. */
  function HsvSaturation(mn: real, mx: real): (s: real)
    ensures 0.0 <= mn <= mx ==> 0.0 <= s <= 100.0 && (s / 100.0) * mx == mx - mn
    ensures mn == mx ==> s == 0.0
  {
    var delta := mx - mn;
    SaturationBound(mn, mx);
    if mx == 0.0 then 0.0 else ((delta / mx) * 1000.0) / 10.0
  }

  /** `hsv2rgb(hsv)` of the `Colors` engine: the sector `floor(h / 60) % 6`
      (JavaScript's remainder, so a negative sector selects no case and
      gives black, unless it is a multiple of 6) picks the channel
      arrangement; the channels are not rounded. */
  function HsvToRgb(hsv: Hsv): (c: Rgb)
    ensures RemInt(HueSector(hsv.h), 6) != 0 && hsv.h < 0.0 ==> c == Rgb(0.0, 0.0, 0.0)
    ensures 0.0 <= hsv.s <= 100.0 && 0.0 <= hsv.v <= 100.0 ==>
      0.0 <= c.r <= 255.0 && 0.0 <= c.g <= 255.0 && 0.0 <= c.b <= 255.0
  {
    // `Math.floor(h / 60) % 6`, `h / 60 - Math.floor(h / 60)`, and
    // `255 * v` (which the source multiplies first in `p`, `q` and `t`)
    HsvCandidates(RemInt(HueSector(hsv.h), 6), HueFraction(hsv.h), hsv.s / 100.0, 255.0 * (hsv.v / 100.0))
  }

  /** The candidate channels `p`, `q`, `t` and `255 * v` of `hsv2rgb`, from
      the case `hi`, the fraction `f` through the sector, the saturation `s`
      as a fraction and `top`, the value scaled to 255, arranged by the
      `switch`. */
  function HsvCandidates(hi: int, f: real, s: real, top: real): (c: Rgb)
    requires 0.0 <= f < 1.0
    ensures !(0 <= hi < 6) ==> c == Rgb(0.0, 0.0, 0.0)
    ensures 0.0 <= s <= 1.0 && 0.0 <= top <= 255.0 ==>
      0.0 <= c.r <= 255.0 && 0.0 <= c.g <= 255.0 && 0.0 <= c.b <= 255.0
  {
    var p := top * (1.0 - s);
    var q := top * (1.0 - s * f);
    var t := top * (1.0 - s * (1.0 - f));
    HsvChannelBounds(top, s, f);
    HsvSwitch(hi, top, p, q, t)
  }

  /** The `switch (hi)` of `hsv2rgb`: six arrangements of the candidate
      channels, and black for any other `hi`. */
  function HsvSwitch(hi: int, top: real, p: real, q: real, t: real): Rgb {
    if hi == 0 then Rgb(top, t, p)
    else if hi == 1 then Rgb(q, top, p)
    else if hi == 2 then Rgb(p, top, t)
    else if hi == 3 then Rgb(p, q, top)
    else if hi == 4 then Rgb(t, p, top)
    else if hi == 5 then Rgb(top, p, q)
    else Rgb(0.0, 0.0, 0.0)
  }

  /** Saturation `delta / max` lies in [0, 1] for non-negative channels. */
  lemma SaturationBound(mn: real, mx: real)
    ensures 0.0 < mx && 0.0 <= mn <= mx ==>
      var s := (((mx - mn) / mx) * 1000.0) / 10.0;
      0.0 <= s <= 100.0 && (s / 100.0) * mx == mx - mn
  {
    if 0.0 < mx && 0.0 <= mn <= mx {
      RatioBounds(mx - mn, mx);
    }
  }

  /** The four candidate channels of `hsv2rgb` lie in [0, 255] when
      saturation and value are in range. */
  lemma HsvChannelBounds(top: real, s: real, f: real)
    requires 0.0 <= f < 1.0
    ensures 0.0 <= s <= 1.0 && 0.0 <= top <= 255.0 ==>
      0.0 <= top * (1.0 - s) <= 255.0 &&
      0.0 <= top * (1.0 - s * f) <= 255.0 &&
      0.0 <= top * (1.0 - s * (1.0 - f)) <= 255.0
  {
    if 0.0 <= s <= 1.0 && 0.0 <= top <= 255.0 {
      UnitProduct(s, f);
      UnitProduct(s, 1.0 - f);
      ScaledUnit(top, 1.0 - s);
      ScaledUnit(top, 1.0 - s * f);
      ScaledUnit(top, 1.0 - s * (1.0 - f));
    }
  }

  /** A number in [0, 255] times one in [0, 1] lies in [0, 255]. */
  lemma ScaledUnit(top: real, y: real)
    requires 0.0 <= top <= 255.0 && 0.0 <= y <= 1.0
    ensures 0.0 <= top * y <= 255.0
  {
    MulLe(y, 1.0, top);
    MulLe(0.0, y, top);
    assert y * top <= 1.0 * top && 0.0 * top <= y * top;
    assert top * y == y * top;
  }

  /** The product of two numbers in [0, 1] lies in [0, 1]. */
  lemma UnitProduct(x: real, y: real)
    requires 0.0 <= x <= 1.0 && 0.0 <= y <= 1.0
    ensures 0.0 <= x * y <= 1.0
  {
    MulLe(x, 1.0, y);
    assert x * y <= 1.0 * y;
  }

  /** For any non-negative hue (the hue slider sends 360 too), `hsv2rgb` is
      the sector reading of that hue between `top * (1 - s)` and `top`, in
      the sector `floor(h / 60) % 6`, where `top` is `255 * v` and
      saturation and value are taken as fractions; below 360 that sector is
      `floor(h / 60)` itself. */
  lemma HsvToRgbIsSectorReading(hsv: Hsv, s: real, top: real)
    requires 0.0 <= hsv.h
    requires s == hsv.s / 100.0 && top == 255.0 * (hsv.v / 100.0)
    ensures HsvToRgb(hsv) == SectorColor(RemInt(HueSector(hsv.h), 6), HueFraction(hsv.h), top * (1.0 - s), top)
    ensures hsv.h < 360.0 ==>
      HsvToRgb(hsv) == SectorColor(HueSector(hsv.h), HueFraction(hsv.h), top * (1.0 - s), top)
  {
    var k, f := RemInt(HueSector(hsv.h), 6), HueFraction(hsv.h);
    SectorOfNonNegativeHue(hsv.h);
    assert HsvToRgb(hsv) == HsvCandidates(k, f, s, top);
    SwitchOfProducts(k, top, s, f);
    if hsv.h < 360.0 {
      SectorOfHue(hsv.h);
    }
  }

  /** The switch of `hsv2rgb` on its candidate channels is the sector
      reading between `top * (1 - s)` and `top`. */
  lemma SwitchOfProducts(k: int, top: real, s: real, f: real)
    requires 0 <= k < 6 && 0.0 <= f < 1.0
    ensures HsvCandidates(k, f, s, top) == SectorColor(k, f, top * (1.0 - s), top)
  {
    SectorProducts(top, s, f);
    SwitchIsSector(k, f, top * (1.0 - s), top);
  }

  /** The candidate channels of `hsv2rgb` are the low channel plus a
      fraction of the chroma `top - lo`. */
  lemma SectorProducts(top: real, s: real, f: real)
    ensures var lo := top * (1.0 - s);
      top * (1.0 - s * f) == lo + (1.0 - f) * (top - lo) &&
      top * (1.0 - s * (1.0 - f)) == lo + f * (top - lo)
  {
    var lo := top * (1.0 - s);
    var d := top * s;
    assert top - lo == d;
    assert top * (s * f) == d * f;
    assert top * (s * (1.0 - f)) == d * (1.0 - f);
  }

  /** On sectors 0 to 5 the switch of `hsv2rgb` arranges its channels as
      the sector reading does. */
  lemma SwitchIsSector(k: int, f: real, lo: real, top: real)
    requires 0 <= k < 6
    ensures HsvSwitch(k, top, lo, lo + (1.0 - f) * (top - lo), lo + f * (top - lo))
      == SectorColor(k, f, lo, top)
  {
  }

  /** `hsv2rgb` inverts `rgb2hsv` exactly on non-negative channels. */
  lemma HsvRoundTrip(c: Rgb)
    requires IsNonNegativeRgb(c)
    ensures HsvToRgb(RgbToHsv(c)) == c
  {
    var mn, mx := Min3(c.r, c.g, c.b), Max3(c.r, c.g, c.b);
    var hsv := RgbToHsv(c);
    var s := hsv.s / 100.0;
    RgbToHsvReading(c);
    LowChannel(mn, mx, s);
    HueDeterminesChannels(c.r, c.g, c.b);
    InvertHsv(c, hsv, s, mx);
  }

  /** What the round trip needs to know of `rgb2hsv`. */
  lemma RgbToHsvReading(c: Rgb)
    requires IsNonNegativeRgb(c)
    ensures var mn, mx := Min3(c.r, c.g, c.b), Max3(c.r, c.g, c.b);
      var hsv := RgbToHsv(c);
      hsv.h == HueOf(c.r, c.g, c.b) && 255.0 * (hsv.v / 100.0) == mx &&
      hsv.v / 100.0 == mx / 255.0 && hsv.s == HsvSaturation(mn, mx)
  {
  }

  /** The last step of `HsvRoundTrip`, on named quantities. */
  lemma InvertHsv(c: Rgb, hsv: Hsv, s: real, top: real)
    requires 0.0 <= hsv.h < 360.0 && s == hsv.s / 100.0 && top == 255.0 * (hsv.v / 100.0)
    requires hsv.h == HueOf(c.r, c.g, c.b) && SectorReading(c.r, c.g, c.b)
    requires top == Max3(c.r, c.g, c.b) && top * (1.0 - s) == Min3(c.r, c.g, c.b)
    ensures HsvToRgb(hsv) == c
  {
    HsvToRgbIsSectorReading(hsv, s, top);
  }

  /** `max * (1 - s)` with `s` the saturation `(max - min) / max` of
      non-negative channels is the smallest channel. */
  lemma LowChannel(mn: real, mx: real, s: real)
    requires 0.0 <= mn <= mx && s == HsvSaturation(mn, mx) / 100.0
    ensures mx * (1.0 - s) == mn
  {
    assert s * mx == mx - mn;
  }

  /** `rgb2hsl(rgb)`: hue in degrees, saturation and lightness in percent,
      from the channels taken as fractions of 255. */
  function RgbToHsl(c: Rgb): (hsl: Hsl)
    ensures 0.0 <= hsl.h < 360.0
    ensures IsChannelRgb(c) ==> 0.0 <= hsl.s <= 100.0 && 0.0 <= hsl.l <= 100.0
    ensures c.r == c.g == c.b ==> hsl.h == 0.0 && hsl.s == 0.0
  {
    var r, g, b := c.r / 255.0, c.g / 255.0, c.b / 255.0;
    var mn, mx := Min3(r, g, b), Max3(r, g, b);
    Hsl(HueOf(r, g, b), HslSaturation(mn, mx) * 100.0, (mn + mx) / 2.0 * 100.0)
  }

  /** The saturation `rgb2hsl` derives from the smallest and largest
      channel (as fractions): chroma over `max + min` up to lightness one
      half, over `2 - max - min` above it. */
  function HslSaturation(mn: real, mx: real): (s: real)
    ensures 0.0 <= mn <= mx <= 1.0 ==> 0.0 <= s <= 1.0
    ensures mn == mx ==> s == 0.0
  {
    var delta := mx - mn;
    HslSaturationBound(mn, mx);
    if mx == mn then 0.0
    else if (mn + mx) / 2.0 <= 0.5 then Quotient(delta, mx + mn)
    else Quotient(delta, 2.0 - mx - mn)
  }

  lemma HslSaturationBound(mn: real, mx: real)
    ensures 0.0 <= mn < mx <= 1.0 ==>
      0.0 <= (mx - mn) / (mx + mn) <= 1.0 && 0.0 <= (mx - mn) / (2.0 - mx - mn) <= 1.0
  {
    if 0.0 <= mn < mx <= 1.0 {
      RatioBounds(mx - mn, mx + mn);
      RatioBounds(mx - mn, 2.0 - mx - mn);
    }
  }

  /** The chroma `hsl2rgb` computes from saturation and lightness given as
      fractions: `(1 - |2l - 1|) * s`. */
  function HslChroma(s: real, l: real): (c: real)
    ensures 0.0 <= s <= 1.0 && 0.0 <= l <= 1.0 ==>
      0.0 <= c && 0.0 <= l - c / 2.0 && l + c / 2.0 <= 1.0
  {
    var width := 1.0 - Abs(2.0 * l - 1.0);
    ChromaBound(width, s, l);
    width * s
  }

  lemma ChromaBound(width: real, s: real, l: real)
    requires width == 1.0 - Abs(2.0 * l - 1.0)
    ensures 0.0 <= s <= 1.0 && 0.0 <= l <= 1.0 ==>
      0.0 <= width * s && 0.0 <= l - width * s / 2.0 && l + width * s / 2.0 <= 1.0
  {
    if 0.0 <= s <= 1.0 && 0.0 <= l <= 1.0 {
      assert 0.0 <= width <= 1.0 && width / 2.0 <= l && l + width / 2.0 <= 1.0;
      MulLe(s, 1.0, width);
      assert s * width <= 1.0 * width;
    }
  }

  /** `hsl2rgb(h, s, l)`: chroma, the secondary component `x` from the
      hue's position in a double sector, and the offset `m`; the sector is
      chosen by comparing `h` with multiples of 60 (a hue outside [0, 360)
      matches none and leaves only the offset), and each channel is
      rounded. */
  function HslToRgb(h: real, s: real, l: real): (c: Rgb)
    ensures IsInteger(c.r) && IsInteger(c.g) && IsInteger(c.b)
    ensures 0.0 <= s <= 100.0 && 0.0 <= l <= 100.0 ==> IsByteRgb(c)
  {
    RoundChannels(HslFractions(h, s / 100.0, l / 100.0))
  }

  /** With no saturation, or a hue outside [0, 360) that matches no
      sector, `hsl2rgb` leaves only the offset: a grey. */
  lemma HslToRgbGrey(h: real, s: real, l: real)
    requires s == 0.0 || !(0.0 <= h < 360.0)
    ensures var c := HslToRgb(h, s, l); c.r == c.g == c.b
  {
    var chroma := HslChroma(s / 100.0, l / 100.0);
    var x := chroma * (1.0 - Abs(RemReal(h / 60.0, 2.0) - 1.0));
    var base := HslSwitch(h, chroma, x);
    assert chroma == 0.0 || !(0.0 <= h < 360.0);
    assert base == Rgb(0.0, 0.0, 0.0);
  }

  /** The channels of `hsl2rgb` as fractions, before scaling and rounding. */
  function HslFractions(h: real, s: real, l: real): (c: Rgb)
    ensures 0.0 <= s <= 1.0 && 0.0 <= l <= 1.0 ==>
      0.0 <= c.r <= 1.0 && 0.0 <= c.g <= 1.0 && 0.0 <= c.b <= 1.0
  {
    var chroma := HslChroma(s, l);
    HslOffsetSwitch(h, chroma, l - chroma / 2.0)
  }

  /** The secondary component `x`, the `if` chain on it and the chroma, and
      the offset `m` added to each channel. */
  function HslOffsetSwitch(h: real, chroma: real, m: real): (c: Rgb)
    ensures 0.0 <= chroma && 0.0 <= m && m + chroma <= 1.0 ==>
      0.0 <= c.r <= 1.0 && 0.0 <= c.g <= 1.0 && 0.0 <= c.b <= 1.0
  {
    var x := chroma * (1.0 - Abs(RemReal(h / 60.0, 2.0) - 1.0));
    SecondaryBound(h, chroma);
    var base := HslSwitch(h, chroma, x);
    Rgb(base.r + m, base.g + m, base.b + m)
  }

  /** `x` lies between 0 and the chroma for a hue from 0 up. */
  lemma SecondaryBound(h: real, chroma: real)
    ensures 0.0 <= h && 0.0 <= chroma ==>
      0.0 <= chroma * (1.0 - Abs(RemReal(h / 60.0, 2.0) - 1.0)) <= chroma
  {
    if 0.0 <= h && 0.0 <= chroma {
      var k := 1.0 - Abs(RemReal(h / 60.0, 2.0) - 1.0);
      assert 0.0 <= k <= 1.0;
      MulLe(k, 1.0, chroma);
    }
  }

  /** The `if` chain of `hsl2rgb`: which of chroma, `x` and 0 each channel
      gets, by 60-degree sector. */
  function HslSwitch(h: real, chroma: real, x: real): (base: Rgb)
    ensures !(0.0 <= h < 360.0) ==> base == Rgb(0.0, 0.0, 0.0)
    ensures 0.0 <= x <= chroma ==>
      0.0 <= base.r <= chroma && 0.0 <= base.g <= chroma && 0.0 <= base.b <= chroma
  {
    if 0.0 <= h < 60.0 then Rgb(chroma, x, 0.0)
    else if 60.0 <= h < 120.0 then Rgb(x, chroma, 0.0)
    else if 120.0 <= h < 180.0 then Rgb(0.0, chroma, x)
    else if 180.0 <= h < 240.0 then Rgb(0.0, x, chroma)
    else if 240.0 <= h < 300.0 then Rgb(x, 0.0, chroma)
    else if 300.0 <= h < 360.0 then Rgb(chroma, 0.0, x)
    else Rgb(0.0, 0.0, 0.0)
  }

  /** `Math.round(v * 255)` on each channel of a fraction triple. */
  function RoundChannels(c: Rgb): (rounded: Rgb)
    ensures IsInteger(rounded.r) && IsInteger(rounded.g) && IsInteger(rounded.b)
    ensures 0.0 <= c.r <= 1.0 && 0.0 <= c.g <= 1.0 && 0.0 <= c.b <= 1.0 ==> IsByteRgb(rounded)
  {
    Rgb(Round(c.r * 255.0) as real, Round(c.g * 255.0) as real, Round(c.b * 255.0) as real)
  }

  /** JavaScript's `(h / 60) % 2` for a hue in [0, 360): the fraction
      through the sector in an even sector, one more in an odd one. */
  lemma DoubleSectorPosition(h: real)
    requires 0.0 <= h < 360.0
    ensures RemReal(h / 60.0, 2.0) ==
      if HueSector(h) % 2 == 0 then HueFraction(h) else 1.0 + HueFraction(h)
  {
    var a := h / 60.0;
    var k := HueSector(h);
    assert 0 <= k < 6;
    assert Trunc(a / 2.0) == k / 2;
  }

  /** The `if` chain of `hsl2rgb`, shifted by the offset `m`, is the sector
      reading of the hue between `m` and `m + chroma`. */
  lemma HslSwitchIsSector(h: real, chroma: real, m: real)
    requires 0.0 <= h < 360.0
    ensures HslOffsetSwitch(h, chroma, m) == SectorColor(HueSector(h), HueFraction(h), m, m + chroma)
  {
    var k, f := HueSector(h), HueFraction(h);
    var x := chroma * (1.0 - Abs(RemReal(h / 60.0, 2.0) - 1.0));
    DoubleSectorPosition(h);
    var factor := 1.0 - Abs(RemReal(h / 60.0, 2.0) - 1.0);
    assert factor == if k % 2 == 0 then f else 1.0 - f;
    SecondaryIsFraction(chroma, factor, f, k % 2 == 0);
    SwitchBySector(h, k, f, chroma, m, x);
  }

  /** `x` is the chroma times the fraction through the sector, counted
      forwards in an even sector and backwards in an odd one. */
  lemma SecondaryIsFraction(chroma: real, factor: real, f: real, even: bool)
    requires factor == if even then f else 1.0 - f
    ensures chroma * factor == if even then f * chroma else (1.0 - f) * chroma
  {
  }

  lemma SwitchBySector(h: real, k: int, f: real, chroma: real, m: real, x: real)
    requires 0.0 <= h < 360.0 && k == HueSector(h) && f == HueFraction(h)
    requires x == if k % 2 == 0 then f * chroma else (1.0 - f) * chroma
    ensures var base := HslSwitch(h, chroma, x);
      Rgb(base.r + m, base.g + m, base.b + m) == SectorColor(k, f, m, m + chroma)
  {
    assert (m + chroma) - m == chroma;
  }

  /** For a hue in [0, 360), the channels of `hsl2rgb` before rounding are
      the sector reading of the hue between the offset `m` and
      `m + chroma`. */
  lemma HslFractionsAreSectorReading(h: real, s: real, l: real)
    requires 0.0 <= h < 360.0
    ensures var chroma := HslChroma(s, l);
      var m := l - chroma / 2.0;
      HslFractions(h, s, l) == SectorColor(HueSector(h), HueFraction(h), m, m + chroma)
  {
    var chroma := HslChroma(s, l);
    HslSwitchIsSector(h, chroma, l - chroma / 2.0);
  }

  /** The chroma `hsl2rgb` recovers from the saturation and lightness
      `rgb2hsl` computes is the spread between largest and smallest
      channel. */
  lemma HslChromaInverts(mn: real, mx: real)
    requires 0.0 <= mn <= mx <= 1.0
    ensures HslChroma(HslSaturation(mn, mx), (mn + mx) / 2.0) == mx - mn
  {
    var s := HslSaturation(mn, mx);
    var l := (mn + mx) / 2.0;
    var width := 1.0 - Abs(2.0 * l - 1.0);
    assert HslChroma(s, l) == width * s;
    if mn == mx {
      assert s == 0.0;
    } else if l <= 0.5 {
      assert width == mx + mn;
      assert s * (mx + mn) == mx - mn;
    } else {
      assert width == 2.0 - mx - mn;
      assert s * (2.0 - mx - mn) == mx - mn;
    }
  }

  /** Before rounding, `hsl2rgb` recovers the fractions `rgb2hsl` started
      from, for fractions in [0, 1]. */
  lemma HslFractionsInvert(r: real, g: real, b: real, h: real, s: real, l: real)
    requires 0.0 <= r <= 1.0 && 0.0 <= g <= 1.0 && 0.0 <= b <= 1.0
    requires var mn, mx := Min3(r, g, b), Max3(r, g, b);
      h == HueOf(r, g, b) && s == HslSaturation(mn, mx) && l == (mn + mx) / 2.0
    ensures HslFractions(h, s, l) == Rgb(r, g, b)
  {
    var mn, mx := Min3(r, g, b), Max3(r, g, b);
    HslChromaInverts(mn, mx);
    var chroma := HslChroma(s, l);
    assert chroma == mx - mn;
    var m := l - chroma / 2.0;
    assert m == mn && m + chroma == mx;
    HslFractionsAreSectorReading(h, s, l);
    HueDeterminesChannels(r, g, b);
  }

  /** Scaling byte channels down to fractions and rounding them back up
      returns them unchanged. */
  lemma RoundChannelsOfBytes(c: Rgb, fractions: Rgb)
    requires IsByteRgb(c) && fractions == Rgb(c.r / 255.0, c.g / 255.0, c.b / 255.0)
    ensures RoundChannels(fractions) == c
  {
    RoundOfInteger(c.r.Floor);
    RoundOfInteger(c.g.Floor);
    RoundOfInteger(c.b.Floor);
  }

  /** `hsl2rgb` inverts `rgb2hsl` on integral channels in [0, 255]. */
  lemma HslRoundTrip(c: Rgb)
    requires IsByteRgb(c)
    ensures var hsl := RgbToHsl(c); HslToRgb(hsl.h, hsl.s, hsl.l) == c
  {
    var fractions := Rgb(c.r / 255.0, c.g / 255.0, c.b / 255.0);
    RgbToHslReading(c);
    HslToRgbOfChannels(RgbToHsl(c), fractions);
    RoundChannelsOfBytes(c, fractions);
  }

  /** `hsl2rgb` of what `rgb2hsl` computes from channels given as fractions
      in [0, 1] rounds those fractions, scaled to 255. */
  lemma HslToRgbOfChannels(hsl: Hsl, c: Rgb)
    requires 0.0 <= c.r <= 1.0 && 0.0 <= c.g <= 1.0 && 0.0 <= c.b <= 1.0
    requires var mn, mx := Min3(c.r, c.g, c.b), Max3(c.r, c.g, c.b);
      hsl == Hsl(HueOf(c.r, c.g, c.b), HslSaturation(mn, mx) * 100.0, (mn + mx) / 2.0 * 100.0)
    ensures HslToRgb(hsl.h, hsl.s, hsl.l) == RoundChannels(c)
  {
    assert HslToRgb(hsl.h, hsl.s, hsl.l) == RoundChannels(HslFractions(hsl.h, hsl.s / 100.0, hsl.l / 100.0));
    HslFractionsInvert(c.r, c.g, c.b, hsl.h, hsl.s / 100.0, hsl.l / 100.0);
  }

  /** Scaling every channel by the same positive factor (here 1/255, as
      `rgb2hsl` does and `rgb2hsv` does not) leaves the hue unchanged. */
  lemma HueScaleInvariant(r: real, g: real, b: real)
    ensures HueOf(r / 255.0, g / 255.0, b / 255.0) == HueOf(r, g, b)
  {
    var r1, g1, b1 := r / 255.0, g / 255.0, b / 255.0;
    var mn, mx := Min3(r, g, b), Max3(r, g, b);
    var mn1, mx1 := Min3(r1, g1, b1), Max3(r1, g1, b1);
    assert mn1 == mn / 255.0 && mx1 == mx / 255.0;
    if mx != mn {
      if r == mx {
        RatioScale(g1 - b1, mx1 - mn1, g - b, mx - mn, 255.0);
      } else if g == mx {
        RatioScale(b1 - r1, mx1 - mn1, b - r, mx - mn, 255.0);
      } else {
        RatioScale(r1 - g1, mx1 - mn1, r - g, mx - mn, 255.0);
      }
    }
  }

  /** Dividing numerator and denominator by the same factor keeps the
      ratio. */
  lemma RatioScale(n1: real, d1: real, n: real, d: real, k: real)
    requires d != 0.0 && k != 0.0 && n1 == n / k && d1 == d / k
    ensures n1 / d1 == n / d
  {
    var q := n / d;
    assert q * d == n;
    assert q * d1 == n1;
  }

  /** `hsv2hsl(hsv)`: the hue is kept; lightness is `(2 - s) * v / 2` and
      saturation `s * v` over the lightness (or its complement above one
      half), with the 0/0 of black or white turned into 0. */
  function HsvToHsl(hsv: Hsv): (hsl: Hsl)
    ensures hsl.h == hsv.h
    ensures 0.0 <= hsv.s <= 100.0 && 0.0 <= hsv.v <= 100.0 ==>
      0.0 <= hsl.s <= 100.0 && 0.0 <= hsl.l <= 100.0
  {
    var s, v := hsv.s / 100.0, hsv.v / 100.0;
    Hsl(hsv.h, HsvToHslSaturation(s, v) * 100.0, HsvToHslLightness(s, v) * 100.0)
  }

  /** The lightness of `hsv2hsl`, with saturation and value as fractions. */
  function HsvToHslLightness(s: real, v: real): (l: real)
    ensures 0.0 <= s <= 1.0 && 0.0 <= v <= 1.0 ==> 0.0 <= l <= 1.0
  {
    HsvToHslBound(s, v);
    (2.0 - s) * v / 2.0
  }

  /** The saturation of `hsv2hsl`, with saturation and value as fractions. */
  function HsvToHslSaturation(s: real, v: real): (sl: real)
    ensures 0.0 <= s <= 1.0 && 0.0 <= v <= 1.0 ==> 0.0 <= sl <= 1.0
  {
    var l := (2.0 - s) * v;
    HsvToHslBound(s, v);
    Quotient(s * v, if l <= 1.0 then l else 2.0 - l)
  }

  lemma HsvToHslBound(s: real, v: real)
    ensures 0.0 <= s <= 1.0 && 0.0 <= v <= 1.0 ==>
      var l := (2.0 - s) * v;
      0.0 <= l <= 2.0 && 0.0 <= Quotient(s * v, if l <= 1.0 then l else 2.0 - l) <= 1.0
  {
    if 0.0 <= s <= 1.0 && 0.0 <= v <= 1.0 {
      var l := (2.0 - s) * v;
      var sv := s * v;
      MulLe(s, 1.0, v);
      MulLe(0.0, s, v);
      assert s * v <= 1.0 * v && 0.0 * v <= s * v;
      assert 1.0 * v == v;
      assert sv <= v;
      assert 0.0 <= sv;
      assert l == 2.0 * v - sv;
      if l <= 1.0 {
        if l > 0.0 { RatioBounds(sv, l); }
      } else if 2.0 - l > 0.0 {
        RatioBounds(sv, 2.0 - l);
      }
    }
  }

  /** `hsl2hsv(hsl)`: value `l + s * min(l, 1 - l)` and saturation
      `2 * (v - l) / v`, both in percent and rounded; the hue is divided by
      360 and so comes back as a fraction of a turn rather than in
      degrees. */
  function HslToHsv(hsl: Hsl): (hsv: Hsv)
    ensures hsv.h * 360.0 == hsl.h
    ensures IsInteger(hsv.s) && IsInteger(hsv.v)
    ensures 0.0 <= hsl.s <= 100.0 && 0.0 <= hsl.l <= 100.0 ==>
      0.0 <= hsv.s <= 100.0 && 0.0 <= hsv.v <= 100.0
  {
    HsvOfFractions(hsl.h / 360.0, hsl.s / 100.0, hsl.l / 100.0)
  }

  /** The body of `hsl2hsv` once hue, saturation and lightness are
      fractions. */
  function HsvOfFractions(h: real, s: real, l: real): (hsv: Hsv)
    ensures hsv.h == h
    ensures IsInteger(hsv.s) && IsInteger(hsv.v)
    ensures 0.0 <= s <= 1.0 && 0.0 <= l <= 1.0 ==>
      0.0 <= hsv.s <= 100.0 && 0.0 <= hsv.v <= 100.0
  {
    var w := if l < 0.5 then l else 1.0 - l;
    var sv := s * w;
    var v := l + sv;
    HslToHsvBound(s, l, w);
    Hsv(h, Round(if v == 0.0 then 0.0 else 200.0 * sv / v) as real, Round(100.0 * v) as real)
  }

  /** Reads `HsvOfFractions` off its saturation part `sv` and value `v`. */
  lemma HsvOfFractionsReading(h: real, s: real, l: real, sv: real, v: real)
    requires sv == s * (if l < 0.5 then l else 1.0 - l) && v == l + sv
    ensures HsvOfFractions(h, s, l) ==
      Hsv(h, Round(if v == 0.0 then 0.0 else 200.0 * sv / v) as real, Round(100.0 * v) as real)
  {
  }

  lemma HslToHsvBound(s: real, l: real, w: real)
    requires w == if l < 0.5 then l else 1.0 - l
    ensures 0.0 <= s <= 1.0 && 0.0 <= l <= 1.0 ==>
      var v := l + s * w;
      0.0 <= v <= 1.0 && (v != 0.0 ==> 0.0 <= 200.0 * (s * w) / v <= 100.0)
  {
    if 0.0 <= s <= 1.0 && 0.0 <= l <= 1.0 {
      var sv := s * w;
      MulLe(s, 1.0, w);
      MulLe(0.0, s, w);
      assert s * w <= 1.0 * w && 0.0 * w <= s * w;
      assert w <= l;
      assert 0.0 <= sv <= w <= l;
      var v := l + sv;
      if v != 0.0 {
        RatioBounds(2.0 * sv, v);
        assert 200.0 * sv / v == 100.0 * ((2.0 * sv) / v);
      }
    }
  }

  /** Going through HSV gives the same HSL as converting directly:
      `hsv2hsl(rgb2hsv(c)) == rgb2hsl(c)` for non-negative channels. */
  lemma HsvToHslAgrees(c: Rgb)
    requires IsNonNegativeRgb(c)
    ensures HsvToHsl(RgbToHsv(c)) == RgbToHsl(c)
  {
    var hsv := RgbToHsv(c);
    var r, g, b := c.r / 255.0, c.g / 255.0, c.b / 255.0;
    var mn, mx := Min3(r, g, b), Max3(r, g, b);
    RgbToHsvReading(c);
    RgbToHslReading(c);
    HueScaleInvariant(c.r, c.g, c.b);
    FractionExtremes(c.r, c.g, c.b);
    assert hsv.h == HueOf(r, g, b);
    HsvToHslOfParts(hsv, Min3(c.r, c.g, c.b), Max3(c.r, c.g, c.b), mn, mx);
    assert HsvToHsl(hsv) == Hsl(HueOf(r, g, b), HslSaturation(mn, mx) * 100.0, (mn + mx) / 2.0 * 100.0);
  }

  /** `hsv2hsl` of the saturation and value `rgb2hsv` computes from the
      smallest and largest channel. */
  lemma HsvToHslOfParts(hsv: Hsv, rawMn: real, rawMx: real, mn: real, mx: real)
    requires 0.0 <= rawMn <= rawMx && mn == rawMn / 255.0 && mx == rawMx / 255.0
    requires hsv.v / 100.0 == rawMx / 255.0 && hsv.s == HsvSaturation(rawMn, rawMx)
    ensures HsvToHsl(hsv) == Hsl(hsv.h, HslSaturation(mn, mx) * 100.0, (mn + mx) / 2.0 * 100.0)
  {
    SaturationTimesValue(rawMn, rawMx, hsv.s / 100.0, hsv.v / 100.0);
    HsvToHslOf(hsv, mn, mx);
  }

  /** What the agreement lemmas need to know of `rgb2hsl`. */
  lemma RgbToHslReading(c: Rgb)
    ensures var r, g, b := c.r / 255.0, c.g / 255.0, c.b / 255.0;
      var mn, mx := Min3(r, g, b), Max3(r, g, b);
      RgbToHsl(c) == Hsl(HueOf(r, g, b), HslSaturation(mn, mx) * 100.0, (mn + mx) / 2.0 * 100.0)
  {
  }

  /** `hsv2hsl` of a colour whose value is `mx` and whose saturation times
      value is `mx - mn`. */
  lemma HsvToHslOf(hsv: Hsv, mn: real, mx: real)
    requires 0.0 <= mn <= mx && hsv.v / 100.0 == mx
    requires (hsv.s / 100.0) * (hsv.v / 100.0) == mx - mn
    ensures HsvToHsl(hsv) == Hsl(hsv.h, HslSaturation(mn, mx) * 100.0, (mn + mx) / 2.0 * 100.0)
  {
    HsvLightness(hsv.s / 100.0, hsv.v / 100.0, mn, mx);
  }

  /** The lightness and saturation arithmetic of `hsv2hsl`, on saturation
      `s` and value `v` with `s * v` the chroma. */
  lemma HsvLightness(s: real, v: real, mn: real, mx: real)
    requires 0.0 <= mn <= mx && v == mx && s * v == mx - mn
    ensures HsvToHslLightness(s, v) == (mn + mx) / 2.0
    ensures HsvToHslSaturation(s, v) == HslSaturation(mn, mx)
  {
    var l := (2.0 - s) * v;
    assert l == 2.0 * v - s * v == mn + mx;
  }
  /** HSV saturation times value is the chroma, `(max - min) / 255`. */
  lemma SaturationTimesValue(mn: real, mx: real, s: real, v: real)
    requires 0.0 <= mn <= mx && v == mx / 255.0 && s == HsvSaturation(mn, mx) / 100.0
    ensures s * v == (mx - mn) / 255.0
  {
    assert s * mx == mx - mn;
    assert s * v == (s * mx) / 255.0;
  }


  /** Going through HSL gives HSV's saturation and value rounded, and its
      hue divided by 360: `hsl2hsv(rgb2hsl(c))` against `rgb2hsv(c)` for
      channels in [0, 255]. */
  lemma HslToHsvAgrees(c: Rgb)
    requires IsChannelRgb(c)
    ensures var hsv := RgbToHsv(c);
      HslToHsv(RgbToHsl(c)) == Hsv(hsv.h / 360.0, Round(hsv.s) as real, Round(hsv.v) as real)
  {
    var hsv := RgbToHsv(c);
    var r, g, b := c.r / 255.0, c.g / 255.0, c.b / 255.0;
    RgbToHsvReading(c);
    RgbToHslReading(c);
    HueScaleInvariant(c.r, c.g, c.b);
    var hsl := RgbToHsl(c);
    var mn, mx := Min3(r, g, b), Max3(r, g, b);
    HslHalfChroma(hsl, mn, mx);
    HslToHsvOfParts(hsl, hsv, Min3(c.r, c.g, c.b), Max3(c.r, c.g, c.b), mn, mx);
  }

  /** `s * min(l, 1 - l)` of an HSL colour `rgb2hsl` computed is half the
      chroma. */
  lemma HslHalfChroma(hsl: Hsl, mn: real, mx: real)
    requires 0.0 <= mn <= mx <= 1.0
    requires hsl.s == HslSaturation(mn, mx) * 100.0 && hsl.l == (mn + mx) / 2.0 * 100.0
    ensures var s, l := hsl.s / 100.0, hsl.l / 100.0;
      s * (if l < 0.5 then l else 1.0 - l) == (mx - mn) / 2.0
  {
    var s, l := hsl.s / 100.0, hsl.l / 100.0;
    HslToHsvCore(s, l, if l < 0.5 then l else 1.0 - l, mn, mx);
  }

  /** `hsl2hsv` of the saturation and lightness `rgb2hsl` computes from the
      smallest and largest channel. */
  lemma HslToHsvOfParts(hsl: Hsl, hsv: Hsv, rawMn: real, rawMx: real, mn: real, mx: real)
    requires 0.0 <= rawMn <= rawMx <= 255.0 && mn == rawMn / 255.0 && mx == rawMx / 255.0
    requires hsl.h == hsv.h && hsl.l == (mn + mx) / 2.0 * 100.0
    requires var s, l := hsl.s / 100.0, hsl.l / 100.0;
      s * (if l < 0.5 then l else 1.0 - l) == (mx - mn) / 2.0
    requires hsv.v / 100.0 == rawMx / 255.0 && hsv.s == HsvSaturation(rawMn, rawMx)
    ensures HslToHsv(hsl) == Hsv(hsv.h / 360.0, Round(hsv.s) as real, Round(hsv.v) as real)
  {
    var s, l := hsl.s / 100.0, hsl.l / 100.0;
    assert HslToHsv(hsl) == HsvOfFractions(hsl.h / 360.0, s, l);
    HslToHsvValues(hsl.h / 360.0, s, l, if l < 0.5 then l else 1.0 - l, rawMn, rawMx, mn, mx, hsv.s, hsv.v);
  }

  /** The arithmetic of `HslToHsvOfParts` on plain numbers. */
  lemma HslToHsvValues(h: real, s: real, l: real, w: real, rawMn: real, rawMx: real, mn: real, mx: real,
                       hsvS: real, hsvV: real)
    requires 0.0 <= rawMn <= rawMx <= 255.0 && mn == rawMn / 255.0 && mx == rawMx / 255.0
    requires l == (mn + mx) / 2.0 && w == (if l < 0.5 then l else 1.0 - l) && s * w == (mx - mn) / 2.0
    requires hsvV / 100.0 == rawMx / 255.0 && hsvS == HsvSaturation(rawMn, rawMx)
    ensures HsvOfFractions(h, s, l) == Hsv(h, Round(hsvS) as real, Round(hsvV) as real)
  {
    var sv := s * w;
    var v := l + sv;
    HsvOfFractionsReading(h, s, l, sv, v);
    HsvSaturationFromHsl(sv, v, mn, mx, rawMn, rawMx, hsvS);
    SameRounded(h, h, if v == 0.0 then 0.0 else 200.0 * sv / v, hsvS, 100.0 * v, hsvV);
  }

  lemma SameRounded(h1: real, h2: real, s1: real, s2: real, v1: real, v2: real)
    requires h1 == h2 && s1 == s2 && v1 == v2
    ensures Hsv(h1, Round(s1) as real, Round(v1) as real) == Hsv(h2, Round(s2) as real, Round(v2) as real)
  {
  }

  /** In `hsl2hsv`, `s * min(l, 1 - l)` of an HSL colour from `rgb2hsl` is
      half the chroma. */
  lemma HslToHsvCore(s: real, l: real, w: real, mn: real, mx: real)
    requires 0.0 <= mn <= mx <= 1.0 && s == HslSaturation(mn, mx) && l == (mn + mx) / 2.0
    requires w == if l < 0.5 then l else 1.0 - l
    ensures s * w == (mx - mn) / 2.0
  {
    if mn == mx {
      assert s == 0.0;
    } else if l <= 0.5 {
      assert s * (mx + mn) == mx - mn;
      assert w == (mx + mn) / 2.0;
      assert s * w == (s * (mx + mn)) / 2.0;
    } else {
      assert s * (2.0 - mx - mn) == mx - mn;
      assert w == (2.0 - mx - mn) / 2.0;
      assert s * w == (s * (2.0 - mx - mn)) / 2.0;
    }
  }

  /** The saturation `hsl2hsv` computes from half the chroma `sw` and the
      value `v` is the one `rgb2hsv` computes from the raw channels. */
  lemma HsvSaturationFromHsl(sw: real, v: real, mn: real, mx: real, rawMn: real, rawMx: real, hsvS: real)
    requires 0.0 <= rawMn <= rawMx && mn == rawMn / 255.0 && mx == rawMx / 255.0
    requires sw == (mx - mn) / 2.0 && v == mx
    requires hsvS == HsvSaturation(rawMn, rawMx)
    ensures (if v == 0.0 then 0.0 else 200.0 * sw / v) == hsvS
    ensures 100.0 * v == rawMx / 255.0 * 100.0
  {
    if v != 0.0 {
      assert (hsvS / 100.0) * rawMx == rawMx - rawMn;
      assert hsvS * v == 200.0 * sw;
      DivideProduct(hsvS, v, 200.0 * sw);
    }
  }

  /** `rgb2hwb(rgb)`: the hue of `rgb2hsl`, whiteness the smallest channel
      and blackness one less the largest, both as percentages of 255. */
  function RgbToHwb(c: Rgb): (hwb: Hwb)
    ensures 0.0 <= hwb.h < 360.0
    ensures hwb.w / 100.0 * 255.0 == Min3(c.r, c.g, c.b)
    ensures (1.0 - hwb.b / 100.0) * 255.0 == Max3(c.r, c.g, c.b)
    ensures hwb.w + hwb.b <= 100.0
    ensures IsChannelRgb(c) ==> 0.0 <= hwb.w <= 100.0 && 0.0 <= hwb.b <= 100.0
    ensures c.r == c.g == c.b ==> hwb.h == 0.0
  {
    var h := RgbToHsl(c).h;
    var w := (1.0 / 255.0) * Min(c.r, Min(c.g, c.b));
    var bb := 1.0 - (1.0 / 255.0) * Max(c.r, Max(c.g, c.b));
    Hwb(h, w * 100.0, bb * 100.0)
  }

  /** `hwb2rgb(hwb)`: whiteness and blackness as fractions, scaled down to
      sum to one when they sum to more; the hue picks the sector and the
      position in it, and each channel is one of whiteness, one less
      blackness, or the interpolation between them, times 255 (not
      rounded). */
  function HwbToRgb(hwb: Hwb): (c: Rgb)
    ensures hwb.w + hwb.b <= 100.0 ==>
      Min3(c.r, c.g, c.b) == hwb.w / 100.0 * 255.0 &&
      Max3(c.r, c.g, c.b) == (1.0 - hwb.b / 100.0) * 255.0
    ensures hwb.w + hwb.b > 100.0 ==>
      c.r == c.g == c.b == 255.0 * hwb.w / (hwb.w + hwb.b)
    ensures 0.0 <= hwb.w && 0.0 <= hwb.b ==> IsChannelRgb(c)
  {
    var base := HwbBase(hwb.h / 360.0, hwb.w / 100.0, hwb.b / 100.0);
    ScaleExtremes(base);
    GreyShare(hwb.w, hwb.b, hwb.w / 100.0 + hwb.b / 100.0);
    Rgb(base.r * 255.0, base.g * 255.0, base.b * 255.0)
  }

  /** `hwb2rgb` with whiteness and blackness as fractions, before the
      channels are scaled to 255. */
  function HwbBase(h: real, wh: real, bl: real): (c: Rgb)
    ensures wh + bl <= 1.0 ==> Min3(c.r, c.g, c.b) == wh && Max3(c.r, c.g, c.b) == 1.0 - bl
    ensures wh + bl > 1.0 ==> c.r == c.g == c.b == wh / (wh + bl)
    ensures 0.0 <= wh && 0.0 <= bl ==>
      0.0 <= c.r <= 1.0 && 0.0 <= c.g <= 1.0 && 0.0 <= c.b <= 1.0
  {
    var ratio := wh + bl;
    NormalisedShares(wh, bl, ratio);
    if ratio > 1.0 then HwbFractions(h, wh / ratio, bl / ratio)
    else HwbFractions(h, wh, bl)
  }

  /** Whiteness and blackness over one, each divided by their sum, sum to
      one, and are fractions when they are not negative. */
  lemma NormalisedShares(wh: real, bl: real, ratio: real)
    requires ratio == wh + bl
    ensures ratio > 1.0 ==> wh / ratio + bl / ratio == 1.0
    ensures ratio > 1.0 && 0.0 <= wh && 0.0 <= bl ==> 0.0 <= wh / ratio <= 1.0
  {
    if ratio > 1.0 {
      assert wh / ratio + bl / ratio == (wh + bl) / ratio;
      if 0.0 <= wh && 0.0 <= bl {
        RatioBounds(wh, ratio);
      }
    }
  }

  /** Scaling every channel to 255 scales the smallest and largest channel
      with it. */
  /** Dividing every channel by 255 divides the extremes by 255. */
  lemma FractionExtremes(r: real, g: real, b: real)
    ensures Max3(r / 255.0, g / 255.0, b / 255.0) == Max3(r, g, b) / 255.0
    ensures Min3(r / 255.0, g / 255.0, b / 255.0) == Min3(r, g, b) / 255.0
  {
  }

  lemma ScaleExtremes(c: Rgb)
    ensures Min3(c.r * 255.0, c.g * 255.0, c.b * 255.0) == Min3(c.r, c.g, c.b) * 255.0
    ensures Max3(c.r * 255.0, c.g * 255.0, c.b * 255.0) == Max3(c.r, c.g, c.b) * 255.0
  {
  }

  /** The share of whiteness once both are fractions is its share in
      percent. */
  lemma GreyShare(w: real, b: real, ratio: real)
    requires ratio == w / 100.0 + b / 100.0
    ensures w + b > 100.0 ==> 255.0 * ((w / 100.0) / ratio) == 255.0 * w / (w + b)
  {
    if w + b > 100.0 {
      assert ratio == (w + b) / 100.0;
      RatioScale(w / 100.0, ratio, w, w + b, 100.0);
    }
  }

  /** The body of `hwb2rgb` after whiteness and blackness are normalised:
      with `h` a fraction of a turn, `floor(6 h)` picks the case of the
      `switch` and the rest of `6 h`, reversed in an odd sector, places the
      interpolated channel between whiteness and one less blackness. */
  function HwbFractions(h: real, wh: real, bl: real): (c: Rgb)
    ensures wh + bl <= 1.0 ==> Min3(c.r, c.g, c.b) == wh && Max3(c.r, c.g, c.b) == 1.0 - bl
    ensures wh + bl == 1.0 ==> c == Rgb(wh, wh, wh)
  {
    var i := (6.0 * h).Floor;
    var v := 1.0 - bl;
    var f := HwbPosition(6.0 * h, i);
    InterpolationBound(wh, v, f);
    HwbSwitch(i, v, wh + f * (v - wh), wh)
  }

  /** `6 h - i`, reversed when `i & 1` is set (for a negative `i` too: the
      low bit of a two's complement odd number is set). */
  function HwbPosition(h6: real, i: int): (f: real)
    requires i == h6.Floor
    ensures 0.0 <= f <= 1.0
  {
    if i % 2 == 1 then 1.0 - (h6 - i as real) else h6 - i as real
  }

  /** Linear interpolation with a weight in [0, 1] stays between its
      ends. */
  lemma InterpolationBound(lo: real, hi: real, f: real)
    requires 0.0 <= f <= 1.0
    ensures lo <= hi ==> lo <= lo + f * (hi - lo) <= hi
    ensures lo == hi ==> lo + f * (hi - lo) == lo
  {
    if lo <= hi {
      MulLe(f, 1.0, hi - lo);
      MulLe(0.0, f, hi - lo);
      assert 1.0 * (hi - lo) == hi - lo;
    }
  }

  /** The `switch` of `hwb2rgb`: which channel gets `v`, `n` and `wh` in
      each case; any case other than 1 to 5 falls to the first. */
  function HwbSwitch(i: int, v: real, n: real, wh: real): (c: Rgb)
    ensures wh <= n <= v ==> Min3(c.r, c.g, c.b) == wh && Max3(c.r, c.g, c.b) == v
  {
    if i == 1 then Rgb(n, v, wh)
    else if i == 2 then Rgb(wh, v, n)
    else if i == 3 then Rgb(wh, n, v)
    else if i == 4 then Rgb(n, wh, v)
    else if i == 5 then Rgb(v, wh, n)
    else Rgb(v, n, wh)
  }

  /** For a hue in degrees in [0, 360), `HwbFractions` is the sector reading
      of the hue between whiteness and one less blackness. */
  lemma HwbFractionsAreSectorReading(h: real, wh: real, bl: real)
    requires 0.0 <= h < 360.0
    ensures HwbFractions(h / 360.0, wh, bl) ==
      SectorColor(HueSector(h), HueFraction(h), wh, 1.0 - bl)
  {
    var h6 := 6.0 * (h / 360.0);
    assert h6 == h / 60.0;
    var i := h6.Floor;
    assert i == HueSector(h) && h6 - i as real == HueFraction(h);
    assert 0 <= i < 6;
  }

  /** A hue of 360 degrees gives index 6, which falls to the first case of
      the switch: it renders as a hue of 0. */
  lemma HwbFullTurn(w: real, b: real)
    ensures HwbToRgb(Hwb(360.0, w, b)) == HwbToRgb(Hwb(0.0, w, b))
  {
    assert (6.0 * (360.0 / 360.0)).Floor == 6;
    assert (6.0 * (0.0 / 360.0)).Floor == 0;
  }

  /** `hwb2rgb` inverts `rgb2hwb`, for every channel triple: whiteness and
      blackness of a real colour never sum to more than 100, so the
      normalisation never fires, and the hue is that of `rgb2hsl`. */
  lemma HwbRoundTrip(c: Rgb)
    ensures HwbToRgb(RgbToHwb(c)) == c
  {
    RgbToHwbReading(c);
    HwbToRgbOfChannels(c, RgbToHwb(c), c.r / 255.0, c.g / 255.0, c.b / 255.0);
  }

  /** `hwb2rgb` of the hue, smallest and largest of channels given as
      fractions of 255 gives the channels back. */
  lemma HwbToRgbOfChannels(c: Rgb, hwb: Hwb, r: real, g: real, b: real)
    requires r == c.r / 255.0 && g == c.g / 255.0 && b == c.b / 255.0
    requires hwb.h == HueOf(r, g, b) && hwb.w / 100.0 == Min3(r, g, b)
    requires 1.0 - hwb.b / 100.0 == Max3(r, g, b)
    ensures HwbToRgb(hwb) == c
  {
    HwbToRgbReading(hwb);
    HwbBaseInverts(hwb.h, hwb.w / 100.0, hwb.b / 100.0, r, g, b);
  }

  lemma HwbToRgbReading(hwb: Hwb)
    ensures var base := HwbBase(hwb.h / 360.0, hwb.w / 100.0, hwb.b / 100.0);
      HwbToRgb(hwb) == Rgb(base.r * 255.0, base.g * 255.0, base.b * 255.0)
  {
  }

  /** What the round trip needs to know of `rgb2hwb`. */
  lemma RgbToHwbReading(c: Rgb)
    ensures var hwb, r, g, b := RgbToHwb(c), c.r / 255.0, c.g / 255.0, c.b / 255.0;
      hwb.h == HueOf(r, g, b) && hwb.w / 100.0 == Min3(r, g, b) &&
      1.0 - hwb.b / 100.0 == Max3(r, g, b)
  {
  }

  /** Whiteness and blackness taken from the smallest and largest channel,
      with the hue of the channels, give the channels back. */
  lemma HwbBaseInverts(h: real, wh: real, bl: real, r: real, g: real, b: real)
    requires h == HueOf(r, g, b) && wh == Min3(r, g, b) && 1.0 - bl == Max3(r, g, b)
    ensures HwbBase(h / 360.0, wh, bl) == Rgb(r, g, b)
  {
    assert HwbBase(h / 360.0, wh, bl) == HwbFractions(h / 360.0, wh, bl);
    HwbFractionsAreSectorReading(h, wh, bl);
    HueDeterminesChannels(r, g, b);
  }
}

/** The subtractive and luminance models of the `Colors` engine:
    `cmyk2rgb`, `rgb2cmyk` and `rgb2grayscale`. */
module ColorsCmyk {
  import opened JsMath
  import opened ColorTypes

  /** `cmyk2rgb(cmyk)`: each ink and the black as fractions; a channel is
      what the ink, laid over black, leaves of white (at most all of it),
      times 255.  The channels are not rounded. */
  function CmykToRgb(cmyk: Cmyk): (c: Rgb)
    ensures cmyk.k == 100.0 ==> c == Rgb(0.0, 0.0, 0.0)
    ensures IsNonNegativeRgb(c)
    ensures InRange(cmyk) ==> IsChannelRgb(c)
    ensures InRange(cmyk) ==>
      c.r <= (1.0 - cmyk.k / 100.0) * 255.0 && c.g <= (1.0 - cmyk.k / 100.0) * 255.0 &&
      c.b <= (1.0 - cmyk.k / 100.0) * 255.0
    ensures InRange(cmyk) && cmyk.c == 0.0 && cmyk.m == 0.0 && cmyk.y == 0.0 ==>
      c.r == c.g == c.b == (1.0 - cmyk.k / 100.0) * 255.0
  {
    var k := cmyk.k / 100.0;
    Rgb(Remaining(cmyk.c / 100.0, k) * 255.0,
        Remaining(cmyk.m / 100.0, k) * 255.0,
        Remaining(cmyk.y / 100.0, k) * 255.0)
  }

  /** Every ink and the black in [0, 100] percent. */
  predicate InRange(cmyk: Cmyk) {
    0.0 <= cmyk.c <= 100.0 && 0.0 <= cmyk.m <= 100.0 && 0.0 <= cmyk.y <= 100.0 &&
    0.0 <= cmyk.k <= 100.0
  }

  /** `1 - Math.min(1, ink * (1 - k) + k)`: the share of white an ink and
      the black leave.  Full black leaves nothing; no ink leaves what the
      black leaves; more ink never leaves more. */
  function Remaining(ink: real, k: real): (v: real)
    ensures k == 1.0 ==> v == 0.0
    ensures 0.0 <= v
    ensures 0.0 <= ink <= 1.0 && 0.0 <= k <= 1.0 ==> 0.0 <= v <= 1.0 - k
    ensures k <= 1.0 && ink == 0.0 ==> v == 1.0 - k
  {
    var cover := ink * (1.0 - k) + k;
    CoverBounds(ink, k);
    1.0 - Min(1.0, cover)
  }

  /** Ink laid over black covers at least the black and at most
      everything. */
  lemma CoverBounds(ink: real, k: real)
    ensures 0.0 <= ink <= 1.0 && 0.0 <= k <= 1.0 ==> k <= ink * (1.0 - k) + k <= 1.0
    ensures k == 1.0 ==> ink * (1.0 - k) + k == 1.0
  {
    if 0.0 <= ink <= 1.0 && 0.0 <= k <= 1.0 {
      MulLe(ink, 1.0, 1.0 - k);
      MulLe(0.0, ink, 1.0 - k);
    }
  }

  /** `rgb2cmyk(rgb)`: black is one less the largest channel (as a
      fraction); each ink is what its channel lacks of that largest channel,
      relative to it (0 for black, where the source's `|| 0` turns 0/0 into
      0).  All four in percent. */
  function RgbToCmyk(c: Rgb): (cmyk: Cmyk)
    ensures cmyk.k == (1.0 - Max3(c.r, c.g, c.b) / 255.0) * 100.0
    ensures IsChannelRgb(c) ==> InRange(cmyk)
    ensures IsNonNegativeRgb(c) ==> cmyk.c == 0.0 || cmyk.m == 0.0 || cmyk.y == 0.0
    ensures c.r == c.g == c.b ==> cmyk.c == 0.0 && cmyk.m == 0.0 && cmyk.y == 0.0
  {
    var r, g, b := c.r / 255.0, c.g / 255.0, c.b / 255.0;
    var k := Min3(1.0 - r, 1.0 - g, 1.0 - b);
    BlackIsLargest(r, g, b);
    InkBounds(r, k);
    InkBounds(g, k);
    InkBounds(b, k);
    Cmyk(Ink(r, k) * 100.0, Ink(g, k) * 100.0, Ink(b, k) * 100.0, k * 100.0)
  }

  /** `(1 - x - k) / (1 - k) || 0` */
  function Ink(x: real, k: real): real {
    Quotient(1.0 - x - k, 1.0 - k)
  }

  /** The smallest complement is the complement of the largest channel. */
  lemma BlackIsLargest(r: real, g: real, b: real)
    ensures Min3(1.0 - r, 1.0 - g, 1.0 - b) == 1.0 - Max3(r, g, b)
  {
  }

  /** The ink of a channel between 0 and the largest channel `1 - k` lies
      in [0, 1], and is 0 exactly for the largest channel. */
  lemma InkBounds(x: real, k: real)
    ensures 0.0 <= x <= 1.0 - k ==> 0.0 <= Ink(x, k) <= 1.0
    ensures x == 1.0 - k ==> Ink(x, k) == 0.0
    ensures 0.0 <= x <= 1.0 - k && Ink(x, k) == 0.0 ==> x == 1.0 - k
  {
    if 0.0 <= x <= 1.0 - k && k != 1.0 {
      assert 0.0 <= 1.0 - x - k <= 1.0 - k;
      assert Ink(x, k) == (1.0 - x - k) / (1.0 - k);
      DivideBounds(1.0 - x - k, 1.0 - k);
      assert Ink(x, k) * (1.0 - k) == 1.0 - x - k;
    }
  }

  lemma DivideBounds(n: real, d: real)
    requires 0.0 <= n <= d && 0.0 < d
    ensures 0.0 <= n / d <= 1.0
  {
    assert n / d * d == n;
  }

  /** `cmyk2rgb` inverts `rgb2cmyk` exactly on non-negative channels. */
  lemma CmykRoundTrip(c: Rgb)
    requires IsNonNegativeRgb(c)
    ensures CmykToRgb(RgbToCmyk(c)) == c
  {
    var r, g, b := c.r / 255.0, c.g / 255.0, c.b / 255.0;
    var k := Min3(1.0 - r, 1.0 - g, 1.0 - b);
    BlackIsLargest(r, g, b);
    var cmyk := RgbToCmyk(c);
    assert cmyk == Cmyk(Ink(r, k) * 100.0, Ink(g, k) * 100.0, Ink(b, k) * 100.0, k * 100.0);
    InkRoundTrip(r, k, cmyk.c / 100.0);
    InkRoundTrip(g, k, cmyk.m / 100.0);
    InkRoundTrip(b, k, cmyk.y / 100.0);
    assert CmykToRgb(cmyk) == Rgb(Remaining(cmyk.c / 100.0, k) * 255.0,
      Remaining(cmyk.m / 100.0, k) * 255.0, Remaining(cmyk.y / 100.0, k) * 255.0);
  }

  /** The ink `rgb2cmyk` computes for a channel, laid over the black it
      computes, leaves exactly that channel. */
  lemma InkRoundTrip(x: real, k: real, ink: real)
    requires 0.0 <= x <= 1.0 - k && ink == Ink(x, k)
    ensures Remaining(ink, k) == x
  {
    if k == 1.0 {
      assert x == 0.0;
    } else {
      assert ink * (1.0 - k) == 1.0 - x - k;
    }
  }

  /** `rgb2grayscale(rgb)`: the luma weighting 299 : 587 : 114 (per mille)
      of the three channels, not rounded. */
  function RgbToGrayscale(c: Rgb): (y: real)
    ensures Min3(c.r, c.g, c.b) <= y <= Max3(c.r, c.g, c.b)
    ensures c.r == c.g == c.b ==> y == c.r
  {
    (c.r * 299.0 + c.g * 587.0 + c.b * 114.0) / 1000.0
  }

  /** Brightening any channel never darkens the grey. */
  lemma GrayscaleMonotone(c: Rgb, d: Rgb)
    requires c.r <= d.r && c.g <= d.g && c.b <= d.b
    ensures RgbToGrayscale(c) <= RgbToGrayscale(d)
  {
  }
}

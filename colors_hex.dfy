/** The hexadecimal codec of the `Colors` engine (`componentToHex`,
    `rgb2hex`, `hex2rgb`) and its name table lookups (`findColorByHEX`,
    `isColor`). */
module ColorsHex {
  import opened JsMath
  import opened HexText
  import opened ClampUtil
  import opened ColorTypes

  /** `componentToHex(c)`: `Math.round(clamp(c, 0, 255))` in base 16,
      padded to two digits. */
  function ComponentToHex(c: real): (s: string)
    ensures |s| == 2 && AllLowerHex(s) && AllHex(s)
    ensures ParseHex(s) == Round(Clamp(c, 0.0, 255.0))
    ensures 0 <= ParseHex(s) <= 255
  {
    var value := Round(Clamp(c, 0.0, 255.0));
    var hex := ToHexString(value);
    if |hex| == 1 then
      var padded := "0" + hex;
      ParseHexPair(padded);
      padded
    else
      ParseHexPair(hex);
      hex
  }

  /** Out-of-range channels saturate: anything below 0.5 (every negative
      number) encodes as "00", anything from 254.5 up as "ff". */
  lemma ComponentToHexSaturates(c: real)
    ensures c < 0.5 ==> ComponentToHex(c) == "00"
    ensures c >= 254.5 ==> ComponentToHex(c) == "ff"
  {
    if c < 0.5 {
      assert Round(Clamp(c, 0.0, 255.0)) == 0;
      assert ToHexString(0) == "0";
    } else if c >= 254.5 {
      assert Round(Clamp(c, 0.0, 255.0)) == 255;
      assert ToHexString(15) == "f";
      assert ToHexString(255) == "ff";
    }
  }

  /** An integral channel in [0, 255] encodes as its own value. */
  lemma ComponentToHexOfByte(c: real)
    requires IsByte(c)
    ensures ParseHex(ComponentToHex(c)) as real == c
  {
    RoundOfInteger(c.Floor);
  }

  /** `rgb2hex(rgba)`: "#" and the three channel pairs, then a fourth pair
      from `componentToHex(a)` (unscaled) whenever `a` is present. */
  function RgbToHex(c: Rgb, alpha: Option<real>): (s: Hex)
    ensures |s| == (if alpha.Some? then 9 else 7) && s[0] == '#'
    ensures AllLowerHex(s[1..]) && AllHex(s[1..])
    ensures s[1..3] == ComponentToHex(c.r) && s[3..5] == ComponentToHex(c.g)
    ensures s[5..7] == ComponentToHex(c.b)
    ensures alpha.Some? ==> s[7..] == ComponentToHex(alpha.value)
  {
    var x, y, z := ComponentToHex(c.r), ComponentToHex(c.g), ComponentToHex(c.b);
    var a := match alpha
      case Some(v) => ComponentToHex(v)
      case None => "";
    HexLayout(x, y, z, a);
    "#" + x + y + z + a
  }

  /** Where the pairs sit in "#" followed by three pairs and a suffix. */
  lemma HexLayout(x: string, y: string, z: string, a: string)
    requires |x| == 2 && |y| == 2 && |z| == 2
    requires AllLowerHex(x) && AllLowerHex(y) && AllLowerHex(z) && AllLowerHex(a)
    ensures var s := "#" + x + y + z + a;
      |s| == 7 + |a| && s[0] == '#' && AllLowerHex(s[1..]) && AllHex(s[1..]) &&
      s[1..3] == x && s[3..5] == y && s[5..7] == z && s[7..] == a
  {
    var s := "#" + x + y + z + a;
    var t := x + y + z + a;
    assert s[1..] == t;
    assert forall i :: 0 <= i < |t| ==> IsLowerHexDigit(t[i]) by {
      forall i | 0 <= i < |t|
        ensures IsLowerHexDigit(t[i])
      {
        if i < 2 { assert t[i] == x[i]; }
        else if i < 4 { assert t[i] == y[i - 2]; }
        else if i < 6 { assert t[i] == z[i - 4]; }
        else { assert t[i] == a[i - 6]; }
      }
    }
    assert s[1..3] == x && s[3..5] == y && s[5..7] == z && s[7..] == a;
  }

  /** The strings `hex2rgb` reads without producing NaN: a leading character
      (dropped unread), then at least six hexadecimal digits, of which only
      the first eight are read. */
  predicate WellFormedHex(hex: string) {
    |hex| >= 7 && forall i :: 1 <= i < |hex| && i < 9 ==> IsHexDigit(hex[i])
  }

  /** `hex2rgb(hex)`: drop the first character, read the pairs at 0, 2 and
      4 as channels; the pair at 6 (one digit if only one is left) is
      alpha over 255, and alpha is 1 when nothing follows the channels. */
  function HexToRgb(hex: string): (c: Rgba)
    requires WellFormedHex(hex)
    ensures IsByte(c.r) && IsByte(c.g) && IsByte(c.b)
    ensures 0.0 <= c.a <= 1.0
    ensures |hex| == 7 ==> c.a == 1.0
  {
    var s := hex[1..];
    var r := ParsePairAt(s, 0);
    var g := ParsePairAt(s, 2);
    var b := ParsePairAt(s, 4);
    var a := if |s| == 6 then 1.0
      else if |s| == 7 then (ParseHexDigit(s[6..]); ParseHex(s[6..]) as real / 255.0)
      else ParsePairAt(s, 6) as real / 255.0;
    Rgba(r as real, g as real, b as real, a)
  }

  /** `parseInt(s.slice(i, i + 2), 16)` on two hexadecimal digits. */
  function ParsePairAt(s: string, i: nat): (v: nat)
    requires i + 2 <= |s| && AllHex(s[i..i + 2])
    ensures v <= 255
  {
    ParseHexPair(s[i..i + 2]);
    ParseHex(s[i..i + 2])
  }

  /** The codec round trip: integral channels in [0, 255] come back
      unchanged; alpha comes back as 1 when absent, and otherwise as
      `Math.round(clamp(a, 0, 255)) / 255`, not as `a`. */
  lemma HexRoundTrip(c: Rgb, alpha: Option<real>)
    requires IsByteRgb(c)
    ensures WellFormedHex(RgbToHex(c, alpha))
    ensures HexToRgb(RgbToHex(c, alpha)) == Rgba(c.r, c.g, c.b,
      if alpha.Some? then Round(Clamp(alpha.value, 0.0, 255.0)) as real / 255.0 else 1.0)
  {
    var x, y, z := ComponentToHex(c.r), ComponentToHex(c.g), ComponentToHex(c.b);
    var a := if alpha.Some? then ComponentToHex(alpha.value) else "";
    assert RgbToHex(c, alpha) == "#" + x + y + z + a;
    HexToRgbOfPairs(x, y, z, a);
    ComponentToHexOfByte(c.r);
    ComponentToHexOfByte(c.g);
    ComponentToHexOfByte(c.b);
  }

  /** `hex2rgb` of "#" followed by three digit pairs and an optional fourth
      reads each pair as its value, the fourth over 255. */
  lemma HexToRgbOfPairs(x: string, y: string, z: string, a: string)
    requires |x| == 2 && |y| == 2 && |z| == 2 && (|a| == 0 || |a| == 2)
    requires AllHex(x) && AllHex(y) && AllHex(z) && AllHex(a)
    ensures WellFormedHex("#" + x + y + z + a)
    ensures var c := HexToRgb("#" + x + y + z + a);
      c.r == ParseHex(x) as real && c.g == ParseHex(y) as real && c.b == ParseHex(z) as real &&
      c.a == if |a| == 0 then 1.0 else ParseHex(a) as real / 255.0
  {
    HexDigitsOfPairs(x, y, z, a);
    PairsOf(x, y, z, a);
    ChannelsOfSlices("#" + x + y + z + a, x, y, z);
    AlphaOfSlice("#" + x + y + z + a, a);
  }

  /** `hex2rgb` reads the three channel pairs it slices out. */
  lemma ChannelsOfSlices(hex: string, x: string, y: string, z: string)
    requires WellFormedHex(hex) && AllHex(x) && AllHex(y) && AllHex(z)
    requires hex[1..][0..2] == x && hex[1..][2..4] == y && hex[1..][4..6] == z
    ensures HexToRgb(hex).r == ParseHex(x) as real && HexToRgb(hex).g == ParseHex(y) as real
    ensures HexToRgb(hex).b == ParseHex(z) as real
  {
  }

  /** `hex2rgb` reads alpha as 1 after exactly six digits, and as the
      fourth pair over 255 after eight. */
  lemma AlphaOfSlice(hex: string, a: string)
    requires WellFormedHex(hex) && AllHex(a)
    requires (|a| == 0 || |a| == 2) && |hex| == 7 + |a|
    requires |a| == 2 ==> hex[1..][6..8] == a
    ensures HexToRgb(hex).a == if |a| == 0 then 1.0 else ParseHex(a) as real / 255.0
  {
  }

  /** The pairs `hex2rgb` slices out of "#" and four pairs. */
  lemma PairsOf(x: string, y: string, z: string, a: string)
    requires |x| == 2 && |y| == 2 && |z| == 2 && (|a| == 0 || |a| == 2)
    ensures var s := ("#" + x + y + z + a)[1..];
      |s| == 6 + |a| && s[0..2] == x && s[2..4] == y && s[4..6] == z &&
      (|a| == 2 ==> s[6..8] == a)
  {
    var s := ("#" + x + y + z + a)[1..];
    assert s == x + y + z + a;
  }

  /** Where the digits of "#" and four pairs sit. */
  lemma HexDigitsOfPairs(x: string, y: string, z: string, a: string)
    requires |x| == 2 && |y| == 2 && |z| == 2
    requires AllHex(x) && AllHex(y) && AllHex(z) && AllHex(a)
    ensures WellFormedHex("#" + x + y + z + a)
  {
    var hex := "#" + x + y + z + a;
    forall i | 1 <= i < |hex|
      ensures IsHexDigit(hex[i])
    {
      if i < 3 { assert hex[i] == x[i - 1]; }
      else if i < 5 { assert hex[i] == y[i - 3]; }
      else if i < 7 { assert hex[i] == z[i - 5]; }
      else { assert hex[i] == a[i - 7]; }
    }
  }

  /** Alpha 1, written unscaled, is the pair "01". */
  lemma ComponentToHexOfOne()
    ensures ComponentToHex(1.0) == "01"
  {
    assert Round(Clamp(1.0, 0.0, 255.0)) == 1;
    assert ToHexString(1) == "1";
  }

  /** An opaque colour (alpha 1) gets the pair "01", which decodes to an
      alpha of 1/255. */
  lemma OpaqueAlphaPair(c: Rgb)
    ensures RgbToHex(c, Some(1.0))[7..] == "01"
    ensures WellFormedHex(RgbToHex(c, Some(1.0)))
    ensures HexToRgb(RgbToHex(c, Some(1.0))).a == 1.0 / 255.0
  {
    ComponentToHexOfOne();
    var x, y, z := ComponentToHex(c.r), ComponentToHex(c.g), ComponentToHex(c.b);
    assert RgbToHex(c, Some(1.0)) == "#" + x + y + z + "01";
    HexToRgbOfPairs(x, y, z, "01");
    ParseHexPair("01");
  }

  /** The colour-name table: (name, hex) pairs in the order of the source's
      JSON object. */
  type NameTable = seq<(string, Hex)>

  /** `Object.values(colorList)` */
  function Values(table: NameTable): (v: seq<Hex>)
    ensures |v| == |table| && forall i :: 0 <= i < |table| ==> v[i] == table[i].1
  {
    seq(|table|, i requires 0 <= i < |table| => table[i].1)
  }

  /** `values.indexOf(hex)`: the first position holding `hex`, or -1. */
  function IndexOf(values: seq<Hex>, hex: Hex): (i: int)
    ensures -1 <= i < |values|
    ensures 0 <= i ==> values[i] == hex && forall j :: 0 <= j < i ==> values[j] != hex
    ensures i == -1 ==> forall j :: 0 <= j < |values| ==> values[j] != hex
  {
    if |values| == 0 then -1
    else if values[0] == hex then 0
    else
      var k := IndexOf(values[1..], hex);
      if k == -1 then -1 else k + 1
  }

  /** `findColorByHEX(hex)`: the name at the first position whose hex equals
      `hex`, or `undefined` when there is none. */
  function FindColorByHex(table: NameTable, hex: Hex): (name: Option<string>)
    ensures name.None? <==> forall i :: 0 <= i < |table| ==> table[i].1 != hex
    ensures name.Some? ==>
      exists i :: 0 <= i < |table| && table[i] == (name.value, hex) &&
        forall j :: 0 <= j < i ==> table[j].1 != hex
  {
    var i := IndexOf(Values(table), hex);
    if i < 0 then None
    else
      assert table[i] == (table[i].0, hex);
      Some(table[i].0)
  }

  /** `isColor(color)`: whether the table has an entry named `color`. */
  predicate IsColor(table: NameTable, color: string)
  {
    exists i :: 0 <= i < |table| && table[i].0 == color
  }

  /** A name found by hex is a colour name. */
  lemma FoundNameIsColor(table: NameTable, hex: Hex)
    requires FindColorByHex(table, hex).Some?
    ensures IsColor(table, FindColorByHex(table, hex).value)
  {
    var i := IndexOf(Values(table), hex);
    assert table[i].0 == FindColorByHex(table, hex).value;
  }

  /** When two names share a hex value, the earlier one wins. */
  lemma FirstMatchWins(table: NameTable, i: nat, j: nat)
    requires i < j < |table| && table[i].1 == table[j].1
    requires forall k :: 0 <= k < i ==> table[k].1 != table[i].1
    ensures FindColorByHex(table, table[j].1) == Some(table[i].0)
  {
    var k := IndexOf(Values(table), table[j].1);
    assert Values(table)[i] == table[j].1;
  }
}

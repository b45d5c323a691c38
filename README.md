# colorsanmore conversion core in Dafny

This project models the colour-conversion library of the colorsanmore
colour picker and proves properties of it.  All of the modelled code is
pure: values go in and values come out.  The model is made of Dafny
datatypes, functions and lemmas.  JavaScript numbers are `real`.
`Math.round(x)` is `(x + 0.5).Floor`.  JavaScript's truncating `%` and
`~~` are written out (`JsMath.RemInt`, `JsMath.RemReal`, `JsMath.Trunc`).

The model covers three parts of the library.

- The `Colors` engine (`src/lib/colors.ts`).  `convert` turns a colour
  tagged with its model into RGB plus one alpha value.  It then derives
  every other model from that RGB (hub and spoke).  The modules are:
  - `Colors`: `convert`.
  - `ColorsHex`: the hex codec (`componentToHex`, `rgb2hex`, `hex2rgb`)
    and the name lookups (`findColorByHEX`, `isColor`).  The name table
    is a sequence of (name, hex) pairs.
  - `ColorsCylindrical`: the hue-based models HSV, HSL and HWB.
  - `ColorsCmyk`: CMYK and grayscale.
  - `ColorsCie`: the CIE models.  The transcendental primitives they call
    are a parameter.
- The small hex/RGB/HSV pipeline (`src/lib/mainConvert.ts`), in module
  `MainConvert`.  It covers `toHex`, `hex2rgb`, `rgb2hex`, `rgb2hsv`,
  `hsv2rgb` and `transformColor`.  `PrimaryConvert` only forwards to
  `transformColor`.
- The utilities:
  - `ClampUtil`: `clamp`, which is also the private `clamp` of
    `colors.ts`.
  - `FloatUtil`: `float`.
  - `Format`: `formatRgb` and `formatHsv`.
  - `Hidden`: `isHidden`.

Shared modules: `JsMath` (JavaScript arithmetic), `ColorTypes` (the
record shapes of `src/types/index.ts`) and `HexText` (hexadecimal and
decimal digit strings).

The host's number-to-text conversion of fractional numbers is not
modelled.  It is a function parameter: `fractionText` in `Format`, and
`Host.radixText` in `MainConvert`.  The canvas colour-name resolver of
`toHex` is also a parameter, `Host.resolve`.  Every property is proved
for every choice of these parameters.

A zero denominator goes through `JsMath.Quotient`, which returns 0 for
it.  That matches the source where it divides 0 by 0 and the NaN meets a
`|| 0` guard (`rgb2cmyk`, `hsv2hsl`).  It does not match where a non-zero
number is divided by 0: JavaScript then gives Infinity, which `|| 0` lets
through, and `rgb2hsl` has no guard at all.  Those inputs need negative
channels or a saturation above 100; "## Left out" names the members.
Where NaN reaches a result of `mainConvert.ts` without a guard, the model
returns `None`.

Three behaviours of the code are easy to miss, and the model keeps them:
- `rgb2hex` always appends `componentToHex(a)` with `a` unscaled, so an
  opaque colour's hex string ends in "01".
- The "hex" case of `convert` drops the alpha that `hex2rgb` parsed, so
  the result's alpha is 1.
- `convert` has no case for "hsva" and reports "Unsupported color model:
  hsva".

## Model

| member | source | states |
|---|---|---|
| ClampUtil.Clamp | src/utils/clamp.ts:30-36 | above `max` gives `max`, then below `min` gives `min`, else the value; with ordered bounds the result lies in [min, max] and a value inside is kept |
| ClampUtil.ClampIdempotent | src/utils/clamp.ts:35 | clamping twice to the same ordered bounds equals clamping once |
| ClampUtil.ClampMonotone | src/utils/clamp.ts:35 | with ordered bounds, clamping preserves the order of values |
| ClampUtil.ClampCrossedBounds | src/lib/colors.ts:1049-1051 | with `max < min` the upper test wins above `max` and the lower one otherwise, so the result need not lie between the bounds |
| FloatUtil.RoundToStep | src/utils/float.ts:8-11 | the rounded value times the scale is `Math.round(value * scale)` |
| FloatUtil.FloatScaledIsInteger | src/utils/float.ts:9-10 | `float(v, d) * 10^d` is an integer |
| FloatUtil.Float | src/utils/float.ts:8-11 | `float(v, d)` is within half a unit of the d-th decimal place of `v`; that it is a multiple of `10^-d` and that rounding again changes nothing are `FloatScaledIsInteger` and `FloatIdempotent` |
| FloatUtil.FloatIdempotent | src/utils/float.ts:8-11 | rounding a rounded value again changes nothing |
| FloatUtil.FloatBelowOne | src/utils/float.ts:8-11 | `float(v, 3) < 1` exactly when `v < 0.9995` |
| Format.AlphaPart | src/utils/format.ts:14-16 | the alpha part has one element exactly when `a < 0.9995`, and that element is the text of `float(a, 3)` |
| Format.FormatRgb | src/utils/format.ts:12-19 | the three `Math.round`ed channels in red, green, blue order, then the alpha text only when `a < 0.9995`, separated by ", " |
| Format.FormatHsv | src/utils/format.ts:28-39 | rounded hue with "°", rounded saturation and value with "%", in that order, then the alpha under the same rule, separated by ", " |
| Format.JoinOfFields | src/utils/format.ts:18 | joining three fields and at most one more puts ", " between neighbours |
| Format.SplitAtFirstComma | src/utils/format.ts:18 | a comma-free first part followed by ", " can be split off again in only one way |
| Format.FormatRgbKeepsChannels | src/utils/format.ts:12-19 | two colours with the same `formatRgb` text have the same rounded channels |
| Format.FormatHsvKeepsComponents | src/utils/format.ts:28-39 | two colours with the same `formatHsv` text have the same rounded hue, saturation and value |
| Hidden.IsHidden | src/utils/isHidden.ts:13-20 | `true` hides every field and `false` hides none; with a list, a field is hidden exactly when it occurs in the list |
| Hidden.EmptyListHidesNothing | src/utils/isHidden.ts:17-18 | an empty list hides no field |
| Hidden.OnlyTheSetOfKeysMatters | src/utils/isHidden.ts:17-18 | two lists with the same elements hide the same fields, whatever their order or repetitions |
| ColorsHex.ComponentToHex | src/lib/colors.ts:1005-1010 | two lower-case hex digits whose value is `Math.round(clamp(c, 0, 255))`, so the value is in [0, 255] |
| ColorsHex.ComponentToHexSaturates | src/lib/colors.ts:1005-1010 | every input below 0.5 (every negative one) encodes as "00", and every input from 254.5 up as "ff" |
| ColorsHex.ComponentToHexOfByte | src/lib/colors.ts:1005-1010 | an integral channel in [0, 255] encodes as its own value |
| ColorsHex.RgbToHex | src/lib/colors.ts:643-651 | "#", then the three channel pairs in order, then `componentToHex(a)` exactly when `a` is present: 9 characters with alpha, 7 without |
| ColorsHex.HexToRgb | src/lib/colors.ts:898-908 | the three channels read from the pairs after the first character are bytes; alpha is in [0, 1], and 1 when nothing follows the channels |
| ColorsHex.HexRoundTrip | src/lib/colors.ts:643-651 | `hex2rgb(rgb2hex(c))` gives back byte channels unchanged; alpha comes back as 1 when absent and as `round(clamp(a, 0, 255)) / 255` otherwise |
| ColorsHex.HexToRgbOfPairs | src/lib/colors.ts:898-908 | for "#" and three or four hex pairs, each channel is the value of its pair and alpha is the fourth pair over 255, or 1 without one |
| ColorsHex.OpaqueAlphaPair | src/lib/colors.ts:648 | alpha 1 is written as the pair "01", which decodes to alpha 1/255 |
| ColorsHex.IndexOf | src/lib/colors.ts:997 | the first position holding the hex value, or -1 when no position holds it |
| ColorsHex.FindColorByHex | src/lib/colors.ts:994-999 | no name exactly when no entry has the hex value; otherwise the name of the first entry with that value |
| ColorsHex.FoundNameIsColor | src/lib/colors.ts:994-1014 | a name found by hex value is a colour name: `IsColor` (`hasOwnProperty` on the table) holds of every name `findColorByHEX` returns |
| ColorsHex.FirstMatchWins | src/lib/colors.ts:994-999 | when two entries share a hex value, the lookup returns the earlier name |
| ColorsCylindrical.HueOf | src/lib/colors.ts:669-676 | the hue lies in [0, 360), and is 0 when all channels are equal |
| ColorsCylindrical.SectorOfHue | src/lib/colors.ts:415-417 | a hue in [0, 360) lies in one of the six 60-degree sectors, which the remainder by 6 leaves unchanged, at a fraction in [0, 1) |
| ColorsCylindrical.HueDeterminesChannels | src/lib/colors.ts:669-676 | the channels are the six-sector reading, between the smallest and the largest channel, of the hue the channels give |
| ColorsCylindrical.RgbToHsv | src/lib/colors.ts:697-723 | hue in [0, 360); s in [0, 100] for non-negative channels and v in [0, 100] for channels in [0, 255]; equal channels give hue 0 and saturation 0 |
| ColorsCylindrical.HsvSaturation | src/lib/colors.ts:708-709 | saturation is in [0, 100] and satisfies `s/100 * max == max - min`; it is 0 when max equals min |
| ColorsCylindrical.HsvToRgb | src/lib/colors.ts:410-444 | a negative sector index that is not a multiple of 6 hits the default case and gives black; s and v in [0, 100] give channels in [0, 255] |
| ColorsCylindrical.SectorOfNonNegativeHue | src/lib/colors.ts:415-417 | for any non-negative hue, 360 and beyond included, `floor(h / 60) % 6` is one of the six cases and the fraction lies in [0, 1) |
| ColorsCylindrical.HsvToRgbIsSectorReading | src/lib/colors.ts:410-444 | for any non-negative hue, in sector `floor(h / 60) % 6`, the largest channel is `255 v`, the smallest `255 v (1 - s)`, and the third interpolates by the sector fraction; below 360 the sector is `floor(h / 60)` |
| ColorsCylindrical.HsvRoundTrip | src/lib/colors.ts:410-444 | `hsv2rgb(rgb2hsv(c)) == c` for non-negative channels |
| ColorsCylindrical.RgbToHsl | src/lib/colors.ts:658-690 | hue in [0, 360); s and l in [0, 100] for channels in [0, 255]; equal channels give hue 0 and saturation 0 |
| ColorsCylindrical.HslSaturation | src/lib/colors.ts:680-682 | saturation is in [0, 1] for fractions in [0, 1], and 0 when max equals min |
| ColorsCylindrical.HslChroma | src/lib/colors.ts:312-314 | the chroma is non-negative and `l - c/2` and `l + c/2` both lie in [0, 1] |
| ColorsCylindrical.HslToRgb | src/lib/colors.ts:308-350 | the channels are integers, and bytes when s and l are in [0, 100] |
| ColorsCylindrical.HslToRgbGrey | src/lib/colors.ts:312-343 | saturation 0, or a hue outside [0, 360) that matches no branch, gives r = g = b |
| ColorsCylindrical.HslSwitch | src/lib/colors.ts:319-343 | a hue outside [0, 360) leaves all three at 0; otherwise every channel lies between 0 and the chroma |
| ColorsCylindrical.HslFractionsAreSectorReading | src/lib/colors.ts:312-343 | for a hue in [0, 360), the channel fractions are the six-sector reading between `m` and `m + chroma` |
| ColorsCylindrical.HslRoundTrip | src/lib/colors.ts:308-350 | `hsl2rgb` of `rgb2hsl(c)` gives back byte channels exactly |
| ColorsCylindrical.HueScaleInvariant | src/lib/colors.ts:669-672 | the hue of the channels equals the hue of the channels over 255 |
| ColorsCylindrical.HsvToHsl | src/lib/colors.ts:383-401 | the hue is kept; s and v in [0, 100] give s and l in [0, 100] |
| ColorsCylindrical.HsvToHslAgrees | src/lib/colors.ts:383-401 | `hsv2hsl(rgb2hsv(c)) == rgb2hsl(c)` for non-negative channels |
| ColorsCylindrical.HslToHsv | src/lib/colors.ts:281-294 | the hue is divided by 360; s and v are integers, and in [0, 100] when s and l are |
| ColorsCylindrical.HslToHsvAgrees | src/lib/colors.ts:281-294 | for channels in [0, 255], `hsl2hsv(rgb2hsl(c))` is `rgb2hsv(c)` with hue over 360 and s and v rounded |
| ColorsCylindrical.RgbToHwb | src/lib/colors.ts:730-739 | hue in [0, 360); whiteness is the smallest channel and 100 minus blackness the largest, in percent of 255; w + b is at most 100 |
| ColorsCylindrical.HwbToRgb | src/lib/colors.ts:452-516 | for w + b at most 100 the smallest channel is `255 w/100` and the largest `255 (1 - b/100)`; above 100 the result is the grey `255 w/(w + b)`; non-negative w and b give channels in [0, 255] |
| ColorsCylindrical.HwbSwitch | src/lib/colors.ts:480-513 | whichever case is taken, the smallest channel is the whiteness and the largest is `v` |
| ColorsCylindrical.HwbFractionsAreSectorReading | src/lib/colors.ts:472-513 | for a hue in [0, 360), the channel fractions are the six-sector reading between whiteness and one less blackness |
| ColorsCylindrical.HwbFullTurn | src/lib/colors.ts:480-487 | a hue of 360 gives index 6, which takes the first case, so it renders as hue 0 |
| ColorsCylindrical.HwbRoundTrip | src/lib/colors.ts:452-516 | `hwb2rgb(rgb2hwb(c)) == c` for every channel triple |
| ColorsCmyk.CmykToRgb | src/lib/colors.ts:257-272 | channels are never negative; k = 100 gives black; in-range inks give channels in [0, 255], none above `255 (1 - k/100)`, and no ink gives the grey `255 (1 - k/100)` |
| ColorsCmyk.Remaining | src/lib/colors.ts:263-265 | the share of white left is never negative, 0 under full black, at most `1 - k` for in-range ink, and exactly `1 - k` with no ink |
| ColorsCmyk.RgbToCmyk | src/lib/colors.ts:602-619 | k is 100 less the largest channel in percent; channels in [0, 255] give all four in [0, 100]; for non-negative channels one ink is 0; equal channels (black included) give no ink |
| ColorsCmyk.InkBounds | src/lib/colors.ts:608-610 | the ink of a channel up to the largest lies in [0, 1], and is 0 exactly for the largest channel |
| ColorsCmyk.CmykRoundTrip | src/lib/colors.ts:257-272 | `cmyk2rgb(rgb2cmyk(c)) == c` for non-negative channels |
| ColorsCmyk.RgbToGrayscale | src/lib/colors.ts:629-631 | the grey lies between the smallest and the largest channel, and equals the channel when all are equal |
| ColorsCmyk.GrayscaleMonotone | src/lib/colors.ts:629-631 | brightening any channel never darkens the grey |
| ColorsCie.Unit | src/lib/colors.ts:856-858 | the result lies in [0, 1], and a value already there is kept |
| ColorsCie.RgbToXyz | src/lib/colors.ts:777-796 | black maps to XYZ (0, 0, 0) |
| ColorsCie.DarkRgbToXyzIsRational | src/lib/colors.ts:783-785 | channels at most 0.04045 of full scale stay on the linear segment, so their XYZ does not depend on `Math.pow` |
| ColorsCie.XyzToRgb | src/lib/colors.ts:827-861 | every channel lies in [0, 255] whatever the input, because of the clamp; XYZ (0, 0, 0) gives black |
| ColorsCie.XyzToLab | src/lib/colors.ts:871-889 | XYZ (0, 0, 0) gives LAB (0, 0, 0) |
| ColorsCie.WhitePointIsNeutral | src/lib/colors.ts:871-889 | a colour proportional to the D65 white point has a = b = 0 |
| ColorsCie.LabToXyz | src/lib/colors.ts:566-594 | y is the luminance of L; x and z are always the linear inverse, because the branch tests read x and z while they are still 0 |
| ColorsCie.DarkLabToXyzIsRational | src/lib/colors.ts:575-578 | for L at most 8 the result does not depend on `Math.pow` |
| ColorsCie.LchToLab | src/lib/colors.ts:523-535 | L is kept, and chroma 0 gives a = b = 0 |
| ColorsCie.LabToLch | src/lib/colors.ts:543-558 | L is kept; c is the length of (a, b); for an `atan2` result in [-pi, pi] the hue lies in [0, 360) |
| ColorsCie.AngleInDegrees | src/lib/colors.ts:551-555 | an angle in [-pi, pi] radians is in [-180, 180] degrees |
| ColorsCie.LabToRgb | src/lib/colors.ts:918-923 | the channels lie in [0, 255] |
| ColorsCie.LchToRgb | src/lib/colors.ts:965-970 | the channels lie in [0, 255] |
| ColorsCie.RgbToLab | src/lib/colors.ts:746-769 | black maps to LAB (0, 0, 0) |
| ColorsCie.RgbToLch | src/lib/colors.ts:980-989 | L is the LAB lightness; black gives L = 0 |
| ColorsCie.RgbToLchIsPolar | src/lib/colors.ts:980-989 | the chroma is the length of the (a, b) of `rgb2lab`, and the hue lies in [0, 360) whenever `Math.atan2` answers within [-pi, pi] |
| ColorsCie.ZeroChromaIgnoresHue | src/lib/colors.ts:965-970 | LCH with chroma 0 renders the same for every hue, as LAB's neutral axis |
| Colors.Parse | src/lib/colors.ts:27-82 | fails exactly for "hsva", with "Unsupported color model: hsva"; RGB and RGBA are taken as given; every other model goes through its own inverse to RGB (`hex2rgb`, `hsv2rgb`, `hsl2rgb` for HSL and HSLA, `hwb2rgb`, `cmyk2rgb`, `lab2rgb`, `lch2rgb`, `xyz2rgb`); alpha is the input's for RGBA and HSLA and 1 otherwise; CIE inputs give channels in [0, 255] |
| Colors.Derive | src/lib/colors.ts:118-143 | the record's rgb is the hub and every other field is derived from it: hex is `rgb2hex(rgb, alpha)` (9 characters ending in the alpha pair), hsv, hsl, hwb, cmyk, lab, lch and xyz are the conversions of rgb, and rgba, hsva and hsla carry the same alpha |
| Colors.Convert | src/lib/colors.ts:27-144 | fails exactly for "hsva"; otherwise the record's rgb and alpha are what `Parse` reads from the input and every field is derived from them as `Derive` states; rgba.a, hsva.a and hsla.a all equal the input alpha (1 unless RGBA or HSLA), and the hex has 9 characters ending in that alpha's pair |
| Colors.HsvaIsUnsupported | src/lib/colors.ts:79-81 | "hsva" is rejected with "Unsupported color model: hsva" |
| Colors.OpaqueHexEndsIn01 | src/lib/colors.ts:118-119 | without an input alpha the record's hex ends in "01" |
| Colors.HexInputDropsAlpha | src/lib/colors.ts:35-38 | a hex input gives alpha 1 whatever its alpha pair, with RGB being the parsed channels |
| Colors.DerivedRanges | src/lib/colors.ts:118-128 | from channels in [0, 255], every derived hue is in [0, 360) and every percentage in [0, 100] |
| Colors.HubAndSpoke | src/lib/colors.ts:118-143 | two inputs with the same RGB and alpha give the same record |
| Colors.ConvertsTo | src/lib/colors.ts:27-144 | an input that reads as the rgb and alpha of a record `convert` could return converts to exactly that record |
| Colors.HexRecordRoundTrip | src/lib/colors.ts:27-144 | converting the `hex` field of an opaque record with byte channels gives that same record back |
| Colors.HslRecordRoundTrip | src/lib/colors.ts:27-144 | converting the HSL of byte channels gives the same record as converting the channels |
| Colors.HslaRecordRoundTrip | src/lib/colors.ts:27-144 | converting the HSLA of byte channels with any alpha gives the same record as converting their RGBA |
| Colors.HsvRecordRoundTrip | src/lib/colors.ts:27-144 | converting the HSV of non-negative channels gives the same record as converting the channels |
| Colors.HwbRecordRoundTrip | src/lib/colors.ts:27-144 | converting the HWB of any channels gives the same record as converting the channels |
| Colors.CmykRecordRoundTrip | src/lib/colors.ts:27-144 | converting the CMYK of non-negative channels gives the same record as converting the channels |
| MainConvert.ToHex | src/lib/mainConvert.ts:2-27 | a '#' input gives a '#' string of length 7 or 9; lengths 7 and 9 are kept; other lengths than 4, 5, 7 and 9 give "#000000" |
| MainConvert.DoubleEach | src/lib/mainConvert.ts:16-19 | twice as long, with every character written twice in place |
| MainConvert.ToHexDoublesShorthand | src/lib/mainConvert.ts:15-21 | for a 4- or 5-character '#' form, each digit after '#' appears twice at its doubled position |
| MainConvert.ToHexIdempotent | src/lib/mainConvert.ts:15-26 | on '#' input, applying `toHex` twice equals applying it once |
| MainConvert.Expand | src/lib/mainConvert.ts:32-35 | a 3-digit form, with or without '#', becomes "#" and each digit doubled; anything else is kept |
| MainConvert.HexToRgb | src/lib/mainConvert.ts:29-45 | the three channels read from a decodable string are bytes |
| MainConvert.ShortFormIsDoubled | src/lib/mainConvert.ts:32-35 | "#xyz" and "xyz" read as the same colour as "#xxyyzz" |
| MainConvert.ToHexKeepsShortFormColour | src/lib/mainConvert.ts:15-35 | expanding a 3-digit form with `toHex` does not change the colour `hex2rgb` reads |
| MainConvert.RadixText | src/lib/mainConvert.ts:93 | the base-16 text of a non-negative integer is lower-case hex digits with that value |
| MainConvert.PadStart2 | src/lib/mainConvert.ts:93 | text of two or more characters is kept; shorter text gets leading '0's up to two characters |
| MainConvert.PairOfByte | src/lib/mainConvert.ts:93 | a byte becomes two lower-case hex digits with its value |
| MainConvert.RgbToHex | src/lib/mainConvert.ts:90-95 | the text starts with '#' |
| MainConvert.HexRoundTrip | src/lib/mainConvert.ts:29-45 | for byte channels, `rgb2hex` gives "#" and six lower-case hex digits that `hex2rgb` reads back as the same channels |
| MainConvert.RgbToHsv | src/lib/mainConvert.ts:47-66 | equal channels give hue 0 and saturation 0; a largest channel of 0 gives saturation and value 0 |
| MainConvert.HueAgrees | src/lib/mainConvert.ts:55-61 | the pipeline's hue formula, with its +6 wrap, equals the `Colors` engine's hue |
| MainConvert.RgbToHsvAgrees | src/lib/mainConvert.ts:47-66 | the pipeline's `rgb2hsv` equals the `Colors` engine's `rgb2hsv` for every input |
| MainConvert.RgbToHsvRanges | src/lib/mainConvert.ts:47-66 | hue in [0, 360); s and v in [0, 100] for channels in [0, 255] |
| MainConvert.SectorIndex | src/lib/mainConvert.ts:72-77 | the index lies strictly between -6 and 6, and for a non-negative hue it is the floor sector modulo 6 |
| MainConvert.HsvToRgb | src/lib/mainConvert.ts:68-88 | the result is NaN (`None`) exactly when the index is negative, never for a non-negative hue, and otherwise has integer channels |
| MainConvert.GreyOfZeroSaturation | src/lib/mainConvert.ts:68-88 | saturation 0 gives r = g = b |
| MainConvert.HsvToRgbAgrees | src/lib/mainConvert.ts:68-88 | for any non-negative hue, the pipeline's `hsv2rgb` is the `Colors` engine's `hsv2rgb` with every channel rounded |
| MainConvert.HsvToRgbBytes | src/lib/mainConvert.ts:79-81 | for any non-negative hue and s, v in [0, 100], the channels are bytes |
| MainConvert.ReadHex | src/lib/mainConvert.ts:29-45 | the channels are numbers exactly when the string is decodable, and then they are bytes |
| MainConvert.FromHex | src/lib/mainConvert.ts:106-115 | hex is kept, rgb is what `hex2rgb` reads, and hsv is defined exactly when rgb is |
| MainConvert.TransformColor | src/lib/mainConvert.ts:102-131 | "hex" keeps `toHex(input)`, "rgb" keeps the input rgb, "hsv" keeps the input hsv, and each derives the other two: hex read as rgb and rgb as hsv, rgb written as hex and as hsv, hsv as rgb and that rgb as hex; a NaN rgb gives "#NaNNaNNaN"; any other tag gives the default triple |
| MainConvert.DefaultIs121212 | src/lib/mainConvert.ts:106-108 | the default triple is "#121212", rgb (18, 18, 18) and hsv (0, 0, 18/255 * 100) |
| MainConvert.HexOf121212IsDefault | src/lib/mainConvert.ts:102-131 | the "hex" tag with "#121212" gives the default triple |
| MainConvert.RgbTripleIsConsistent | src/lib/mainConvert.ts:102-131 | for byte channels, transforming the hex of an "rgb" result gives the same triple back |
| MainConvert.HsvTripleIsConsistent | src/lib/mainConvert.ts:102-131 | for a non-negative hue and s, v in [0, 100], the triple's rgb is bytes and its hex reads back as that rgb |

## Left out

- NaN and Infinity: a zero denominator is 0 through `JsMath.Quotient`, which is what the `|| 0` guards give for 0 / 0 only.  Where NaN reaches a result without a guard (`hsv2rgb` of mainConvert.ts for a negative index), the model returns `None`.  `MainConvert.ReadHex` and `MainConvert.FromHex` likewise give `None` for a hex that `hex2rgb` cannot read, where JavaScript builds a record in which some field is NaN or undefined (for "#12", r = 18 with g and b undefined; its hsv is h = 0, s = 0, v = NaN).  No other NaN input is modelled.
- `Math.pow`, `Math.sin`, `Math.cos`, `Math.atan2`, `Math.sqrt` and `Math.PI` are not modelled.  They are the `ColorsCie.MathLib` parameter, so the CIE properties hold for any such primitives.
- Floating-point rounding of `+`, `*` and `/` is not modelled: arithmetic is exact over `real`.
- The canvas name resolution of both `toHex` functions (colors.ts:240-248 and mainConvert.ts:3-14), and its "2d context" error, is the `Host.resolve` parameter.  The callers of the colors.ts `toHex` (`toRGB`, `toHSV`, `toRGBA`, `toHSL`, `hex2rgba`, `hex2hsl`, `hex2hsv`) are not modelled.
- `toString` of fractional numbers is the `fractionText` parameter (format.ts) and `Host.radixText` (mainConvert.ts).  Integers are written out exactly.  Integers of 1e21 and above, which JavaScript writes in exponent form, are written as plain digits.
- `parseInt` leniency is not modelled.  `ColorsHex.HexToRgb` requires `WellFormedHex`, and `Colors.Convert` requires well-typed input.  `MainConvert.HexToRgb` requires `Decodable`; `MainConvert.ReadHex` gives `None` where JavaScript would build a record with NaN or undefined channels.
- Colors.Convert: the tag is a `ModelKey` value, so a string that names no key cannot be passed.  The "hsva" key, the only key without a case, is modelled with its error.
- Colors.Convert: in JavaScript the "hex" case passes the whole parsed record, alpha included, as `rgb`, so the result's `rgb` field also carries an `a` property.  The model keeps the three channels only.
- `xyz2lab` and `lab2lch` return arrays in JavaScript; the model returns `Lab` and `Lch` records with the same three components in the same order.
- ColorsCylindrical.HslSaturation: `rgb2hsl` divides by `max + min` (or `2 - max - min`) without a guard (colors.ts:680-682).  When that is 0 and the channels differ (rgb(-51, 51, 0), say) JavaScript gives Infinity; the model gives 0.
- ColorsCmyk.Ink: `|| 0` (colors.ts:608-610) turns only NaN into 0.  When `1 - k` is 0 and a channel is below the largest, which needs a negative channel (rgb(0, -255, 0)), JavaScript gives Infinity; the model gives 0.
- ColorsCylindrical.HsvToHsl: `hsv2hsl` divides by `l` or `2 - l` (colors.ts:392-393).  A non-zero `s v` over a zero divisor, which needs a saturation of 200, a negative saturation or a value above 100, gives plus or minus Infinity in JavaScript; the model gives 0.
- MainConvert.SectorIndex: `~~` converts to a 32-bit integer (mainConvert.ts:72), so hues whose `h / 60` is 2^31 or more in size wrap around.  The model truncates without wrapping.
- ColorsCylindrical.HwbPosition: `i & 0x01` (colors.ts:475) works on the 32-bit form of `i`, which wraps for hues whose `6 h` is 2^31 or more in size.  The model takes the parity of the unbounded `i`.
- ColorsCie.RgbToLch: its contract states L and the black case; the chroma and the hue range are stated by `ColorsCie.RgbToLchIsPolar`.  Like the other CIE contracts it is weaker than an exact numeric statement, because the results depend on the unmodelled transcendental primitives.
- FloatUtil.Float: `decimalPlaces` is a `nat`.  The negative or fractional place counts that `Math.pow(10, decimalPlaces)` accepts are not modelled.
- ColorsCie.RgbToXyz, ColorsCie.XyzToLab, ColorsCie.RgbToLab, ColorsCie.LabToLch: their contracts are weaker than an exact numeric statement, because the results depend on the unmodelled transcendental primitives.
- MainConvert.RgbToHex: its contract states only the leading '#' for arbitrary channels.  For fractional or negative channels the digits come from the host's `toString(16)`, which is not modelled.  `MainConvert.HexRoundTrip` states the byte case in full.
- `PrimaryTransform` (mainConvert.ts:158-169) is not modelled.  It always hands `transformColor` a colour string.  With the "hex" option that is `TransformColor` of a `HexInput`; with "rgb" JavaScript throws a TypeError in `rgb2hex`, and with "hsv" the channels are NaN.
- The `Colors` class wrappers `getColorList` and `clamp({value, min, max})`, and the string builders `rgb2string`, `hsl2string` and `lab2string`, are not modelled.  The wrappers only forward calls.  The string builders format through JavaScript number-to-text conversion.
- The colour-name table (`colors.json`) is a parameter of `FindColorByHex` and `IsColor`.
- React components, hooks, DOM geometry and pointer events are not modelled.  The UI only calls into the library.

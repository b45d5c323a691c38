/** The display formatters `formatRgb` and `formatHsv`: rounded
    components, an alpha component only when it rounds (to three decimal
    places) below 1, joined by ", ". */
module Format {
  import opened JsMath
  import opened ColorTypes
  import opened HexText
  import opened FloatUtil

  /** `parts.join(", ")` */
  function Join(parts: seq<string>): string {
    if |parts| == 0 then ""
    else if |parts| == 1 then parts[0]
    else parts[0] + ", " + Join(parts[1..])
  }

  /** The decimal text of a number: the digits of an integer, and for any
      other number the host's `toString`, which is not modelled. */
  function NumberText(fractionText: real -> string, x: real): (s: string)
    ensures IsInteger(x) ==> s == DecimalString(x.Floor)
  {
    if IsInteger(x) then DecimalString(x.Floor) else fractionText(x)
  }

  /** `float(a, 3)` when it is below 1, the alpha component both formatters
      append. */
  function AlphaPart(fractionText: real -> string, a: real): (parts: seq<string>)
    ensures |parts| <= 1
    ensures |parts| == 1 <==> a < 0.9995
    ensures |parts| == 1 ==> parts[0] == NumberText(fractionText, Float(a, 3))
  {
    var alpha := Float(a, 3);
    FloatBelowOne(a);
    if alpha < 1.0 then [NumberText(fractionText, alpha)] else []
  }

  /** `formatRgb({r, g, b, a})`: the three channels rounded with
      `Math.round`, red first; the alpha rounded to three places follows only
      when the input alpha is below 0.9995. */
  function FormatRgb(fractionText: real -> string, c: Rgba): (s: string)
    ensures var rgb := DecimalString(Round(c.r)) + ", " + DecimalString(Round(c.g)) + ", " +
      DecimalString(Round(c.b));
      s == if c.a < 0.9995 then rgb + ", " + NumberText(fractionText, Float(c.a, 3)) else rgb
  {
    var r, g, b := DecimalString(Round(c.r)), DecimalString(Round(c.g)), DecimalString(Round(c.b));
    var alpha := AlphaPart(fractionText, c.a);
    JoinOfFields(r, g, b, alpha);
    TailFlat(r, g, b, alpha);
    Join([r, g, b] + alpha)
  }

  /** `formatHsv({h, s, v, a})`: hue rounded and followed by "°", saturation
      and value rounded and followed by "%", in that order; the alpha follows
      under the same rule as in `formatRgb`. */
  function FormatHsv(fractionText: real -> string, c: Hsva): (s: string)
    ensures var hsv := (DecimalString(Round(c.h)) + "°") + ", " + (DecimalString(Round(c.s)) + "%") +
      ", " + (DecimalString(Round(c.v)) + "%");
      s == if c.a < 0.9995 then hsv + ", " + NumberText(fractionText, Float(c.a, 3)) else hsv
  {
    var h, sat, v := DecimalString(Round(c.h)) + "°", DecimalString(Round(c.s)) + "%",
      DecimalString(Round(c.v)) + "%";
    var alpha := AlphaPart(fractionText, c.a);
    JoinOfFields(h, sat, v, alpha);
    TailFlat(h, sat, v, alpha);
    Join([h, sat, v] + alpha)
  }

  /** Three fields and at most one more, joined by ", ". */
  lemma JoinOfFields(f0: string, f1: string, f2: string, alpha: seq<string>)
    requires |alpha| <= 1
    ensures Join([f0, f1, f2] + alpha) == f0 + ", " + (f1 + ", " + Tail(f2, alpha))
  {
    assert [f0, f1, f2] + alpha == [f0] + ([f1] + ([f2] + alpha));
    JoinCons(f0, [f1] + ([f2] + alpha));
    JoinCons(f1, [f2] + alpha);
    if |alpha| == 1 {
      JoinCons(f2, alpha);
    } else {
      assert [f2] + alpha == [f2];
    }
  }

  /** Joining a part before at least one more puts a separator between. */
  lemma JoinCons(x: string, rest: seq<string>)
    requires |rest| >= 1
    ensures Join([x] + rest) == x + ", " + Join(rest)
  {
    assert ([x] + rest)[1..] == rest;
  }

  /** The tail form of a join written out flat. */
  lemma TailFlat(f0: string, f1: string, f2: string, alpha: seq<string>)
    requires |alpha| <= 1
    ensures f0 + ", " + (f1 + ", " + Tail(f2, alpha)) ==
      if |alpha| == 1 then f0 + ", " + f1 + ", " + f2 + ", " + alpha[0] else f0 + ", " + f1 + ", " + f2
  {
  }

  /** A last field, with the alpha part after it when there is one. */
  function Tail(last: string, alpha: seq<string>): string
    requires |alpha| <= 1
  {
    if |alpha| == 1 then last + ", " + alpha[0] else last
  }

  predicate NoComma(s: string) {
    forall i :: 0 <= i < |s| ==> s[i] != ','
  }

  /** Text without a comma splits at the first ", " only one way: the
      separator `join` writes can be found again. */
  lemma SplitAtFirstComma(a: string, x: string, b: string, y: string)
    requires NoComma(a) && NoComma(b) && a + ", " + x == b + ", " + y
    ensures a == b && x == y
  {
    var s, t := a + ", " + x, b + ", " + y;
    assert s[|a|] == ',' && t[|b|] == ',';
    assert |a| == |b|;
    assert a == s[..|a|] && b == t[..|b|];
    assert x == s[|a| + 2..] && y == t[|b| + 2..];
  }

  /** Text without a comma is not a part followed by a separator. */
  lemma NoSeparator(a: string, b: string, y: string)
    requires NoComma(a)
    ensures a != b + ", " + y
  {
    var t := b + ", " + y;
    assert t[|b|] == ',';
  }

  /** The decimal text of an integer, and that text with a unit sign, hold
      no comma. */
  lemma DecimalNoComma(i: int, unit: string)
    requires NoComma(unit)
    ensures NoComma(DecimalString(i)) && NoComma(DecimalString(i) + unit)
  {
    var s := DecimalString(i);
    if i < 0 {
      assert forall k :: 1 <= k < |s| ==> s[k] == s[1..][k - 1];
    }
  }

  /** Equal tails whose last fields hold no comma have equal last fields. */
  lemma LastField(a: string, t: seq<string>, b: string, u: seq<string>)
    requires NoComma(a) && NoComma(b) && |t| <= 1 && |u| <= 1
    requires Tail(a, t) == Tail(b, u)
    ensures a == b
  {
    if |t| == 1 && |u| == 1 {
      SplitAtFirstComma(a, t[0], b, u[0]);
    } else if |t| == 1 {
      NoSeparator(b, a, t[0]);
    } else if |u| == 1 {
      NoSeparator(a, b, u[0]);
    }
  }

  /** Three comma-free fields and a tail, joined: the fields and the tail
      come back out. */
  lemma ThreeFields(p0: string, p1: string, p2: string, t: seq<string>,
                    q0: string, q1: string, q2: string, u: seq<string>)
    requires NoComma(p0) && NoComma(p1) && NoComma(p2) && NoComma(q0) && NoComma(q1) && NoComma(q2)
    requires |t| <= 1 && |u| <= 1
    requires p0 + ", " + p1 + ", " + Tail(p2, t) == q0 + ", " + q1 + ", " + Tail(q2, u)
    ensures p0 == q0 && p1 == q1 && p2 == q2
  {
    var x, y := Tail(p2, t), Tail(q2, u);
    assert p0 + ", " + p1 + ", " + x == p0 + ", " + (p1 + ", " + x);
    assert q0 + ", " + q1 + ", " + y == q0 + ", " + (q1 + ", " + y);
    SplitAtFirstComma(p0, p1 + ", " + x, q0, q1 + ", " + y);
    SplitAtFirstComma(p1, x, q1, y);
    LastField(p2, t, q2, u);
  }

  /** `formatRgb` as its three channel fields and its tail. */
  lemma FormatRgbFields(fractionText: real -> string, c: Rgba)
    ensures FormatRgb(fractionText, c) == DecimalString(Round(c.r)) + ", " + DecimalString(Round(c.g)) +
      ", " + Tail(DecimalString(Round(c.b)), AlphaPart(fractionText, c.a))
  {
    JoinOfFields(DecimalString(Round(c.r)), DecimalString(Round(c.g)), DecimalString(Round(c.b)),
      AlphaPart(fractionText, c.a));
  }

  /** Two colours that `formatRgb` renders alike have the same rounded
      channels. */
  lemma FormatRgbKeepsChannels(fractionText: real -> string, c: Rgba, d: Rgba)
    requires FormatRgb(fractionText, c) == FormatRgb(fractionText, d)
    ensures Round(c.r) == Round(d.r) && Round(c.g) == Round(d.g) && Round(c.b) == Round(d.b)
  {
    DecimalNoComma(Round(c.r), "");
    DecimalNoComma(Round(c.g), "");
    DecimalNoComma(Round(c.b), "");
    DecimalNoComma(Round(d.r), "");
    DecimalNoComma(Round(d.g), "");
    DecimalNoComma(Round(d.b), "");
    FormatRgbFields(fractionText, c);
    FormatRgbFields(fractionText, d);
    ThreeFields(DecimalString(Round(c.r)), DecimalString(Round(c.g)), DecimalString(Round(c.b)),
      AlphaPart(fractionText, c.a),
      DecimalString(Round(d.r)), DecimalString(Round(d.g)), DecimalString(Round(d.b)),
      AlphaPart(fractionText, d.a));
    DecimalStringInjective(Round(c.r), Round(d.r));
    DecimalStringInjective(Round(c.g), Round(d.g));
    DecimalStringInjective(Round(c.b), Round(d.b));
  }

  /** `formatHsv` as its three component fields and its tail. */
  lemma FormatHsvFields(fractionText: real -> string, c: Hsva)
    ensures FormatHsv(fractionText, c) == DecimalString(Round(c.h)) + "°" + ", " +
      (DecimalString(Round(c.s)) + "%") + ", " + Tail(DecimalString(Round(c.v)) + "%", AlphaPart(fractionText, c.a))
  {
    JoinOfFields(DecimalString(Round(c.h)) + "°", DecimalString(Round(c.s)) + "%",
      DecimalString(Round(c.v)) + "%", AlphaPart(fractionText, c.a));
  }

  /** Two colours that `formatHsv` renders alike have the same rounded hue,
      saturation and value. */
  lemma FormatHsvKeepsComponents(fractionText: real -> string, c: Hsva, d: Hsva)
    requires FormatHsv(fractionText, c) == FormatHsv(fractionText, d)
    ensures Round(c.h) == Round(d.h) && Round(c.s) == Round(d.s) && Round(c.v) == Round(d.v)
  {
    DecimalNoComma(Round(c.h), "°");
    DecimalNoComma(Round(c.s), "%");
    DecimalNoComma(Round(c.v), "%");
    DecimalNoComma(Round(d.h), "°");
    DecimalNoComma(Round(d.s), "%");
    DecimalNoComma(Round(d.v), "%");
    FormatHsvFields(fractionText, c);
    FormatHsvFields(fractionText, d);
    ThreeFields(DecimalString(Round(c.h)) + "°", DecimalString(Round(c.s)) + "%",
      DecimalString(Round(c.v)) + "%", AlphaPart(fractionText, c.a),
      DecimalString(Round(d.h)) + "°", DecimalString(Round(d.s)) + "%",
      DecimalString(Round(d.v)) + "%", AlphaPart(fractionText, d.a));
    UnitSuffix(DecimalString(Round(c.h)), DecimalString(Round(d.h)), "°");
    UnitSuffix(DecimalString(Round(c.s)), DecimalString(Round(d.s)), "%");
    UnitSuffix(DecimalString(Round(c.v)), DecimalString(Round(d.v)), "%");
    DecimalStringInjective(Round(c.h), Round(d.h));
    DecimalStringInjective(Round(c.s), Round(d.s));
    DecimalStringInjective(Round(c.v), Round(d.v));
  }

  /** Texts that are equal with the same unit appended are equal. */
  lemma UnitSuffix(a: string, b: string, unit: string)
    requires a + unit == b + unit
    ensures a == b
  {
    assert a == (a + unit)[..|a|];
    assert b == (b + unit)[..|b|];
  }
}

/**
 The colour-literal engine: which literal formats a document category allows, the
 parser of each format (from the capture groups of its pattern to a colour) and the
 serialiser of each format (from a colour to the literal's text).

 Fractions are printed with two decimals from exact hundredths: the fraction b / 255
 of a byte prints as HundredthsFromByte(b) hundredths.
 */
module ColorUtilities {
  import opened Wrappers
  import opened Text
  import opened Colors

  datatype ColorCategory = AnyCategory | QssCategory | CssCategory | QmlCategory | GlslCategory

  datatype ColorFormat =
    | QCssRgbUCharFormat
    | QCssRgbPercentFormat
    | QssHsvFormat
    | CssHslFormat
    | QmlRgbaFormat
    | QmlHslaFormat
    | GlslFormat
    | HexFormat

  /**
   What a colour pattern matched: the whole matched text and capture groups 1 to 4.
   A group that did not take part reads as "" for groups 1 to 3 (its toInt and toDouble
   are those of ""), and as None for the optional alpha group 4.
   */
  datatype Match = Match(whole: string, c1: string, c2: string, c3: string, c4: Option<string>)

  /** A serialised colour: the prefix ("rgba(", "vec3(", "#", ...) and the components. */
  datatype Literal = Literal(prefix: string, parts: string)

  // ---------------------------------------------------------------- categories

  /** formatsFromCategory: the formats a document category allows, in the order the buttons show. */
  function FormatsFromCategory(category: ColorCategory): (r: seq<ColorFormat>)
    ensures 0 < |r|
  {
    match category
    case AnyCategory =>
      [QCssRgbUCharFormat, QCssRgbPercentFormat, QssHsvFormat, CssHslFormat,
       QmlRgbaFormat, QmlHslaFormat, GlslFormat, HexFormat]
    case QssCategory => [QCssRgbUCharFormat, QCssRgbPercentFormat, QssHsvFormat, HexFormat]
    case CssCategory => [QCssRgbUCharFormat, QCssRgbPercentFormat, CssHslFormat, HexFormat]
    case QmlCategory => [QmlRgbaFormat, QmlHslaFormat]
    case GlslCategory => [GlslFormat]
  }

  /** The Any category allows exactly the formats some other category allows, and every format. */
  lemma AnyIsUnionOfCategories(f: ColorFormat)
    ensures f in FormatsFromCategory(AnyCategory)
    ensures f in FormatsFromCategory(AnyCategory)
            <==> f in FormatsFromCategory(QssCategory) || f in FormatsFromCategory(CssCategory)
                 || f in FormatsFromCategory(QmlCategory) || f in FormatsFromCategory(GlslCategory)
  {
    match f
    case QCssRgbUCharFormat => assert FormatsFromCategory(QssCategory)[0] == f;
    case QCssRgbPercentFormat => assert FormatsFromCategory(QssCategory)[1] == f;
    case QssHsvFormat => assert FormatsFromCategory(QssCategory)[2] == f;
    case CssHslFormat => assert FormatsFromCategory(CssCategory)[2] == f;
    case QmlRgbaFormat => assert FormatsFromCategory(QmlCategory)[0] == f;
    case QmlHslaFormat => assert FormatsFromCategory(QmlCategory)[1] == f;
    case GlslFormat => assert FormatsFromCategory(GlslCategory)[0] == f;
    case HexFormat => assert FormatsFromCategory(QssCategory)[3] == f;
  }

  /** No category lists a format twice. */
  lemma FormatsAreDistinct(category: ColorCategory)
    ensures forall i, j :: 0 <= i < j < |FormatsFromCategory(category)|
              ==> FormatsFromCategory(category)[i] != FormatsFromCategory(category)[j]
  {
  }

  // ---------------------------------------------------------------- doubles

  /** The sign QString::number prints before a negative value. */
  function SignText(h: int): string {
    if h < 0 then "-" else ""
  }

  function Abs(h: int): nat {
    if h < 0 then -h else h
  }

  /** QString::number(n, 'f', 2) of a value of exactly h hundredths. */
  function FixedTwoDecimals(h: int): string {
    SignText(h) + NatText(Abs(h) / 100) + "." + TwoDigits(Abs(h) % 100)
  }

  /** colorDoubleToQString: the two-decimal text, with every ".00" replaced by ".0". */
  function ColorDoubleToString(h: int): string {
    var t := FixedTwoDecimals(h);
    if Contains(t, ".00") then ReplaceAll(t, ".00", ".0") else t
  }

  lemma SignAndDigitsHaveNoDot(h: int)
    ensures '.' !in SignText(h) + NatText(Abs(h) / 100)
  {
    DigitsHaveNoDot(NatText(Abs(h) / 100));
  }

  /** The replacement only ever touches the two decimals after the point. */
  lemma DecimalsReplaced(k: nat)
    requires k < 100
    ensures Contains("." + TwoDigits(k), ".00") <==> k == 0
    ensures k == 0 ==> ReplaceAll("." + TwoDigits(k), ".00", ".0") == ".0"
  {
    var t := "." + TwoDigits(k);
    if k == 0 {
      assert t == ".00";
      assert StartsWith(t, ".00");
      assert Contains(t, ".00");
      assert t[3..] == [];
      assert ReplaceAll(t[3..], ".00", ".0") == [];
      assert ReplaceAll(t, ".00", ".0") == ".0" + ReplaceAll(t[3..], ".00", ".0");
    } else {
      assert DigitsValue("00") == 0;
      assert t[1..] == TwoDigits(k) != "00";
      assert t[..3] == t != ".00";
      var t1, t2, t3 := t[1..], t[2..], t[3..];
      assert t3 == [] && !Contains(t3, ".00");
      assert t2[1..] == t3 && !StartsWith(t2, ".00");
      assert !Contains(t2, ".00");
      assert t1[1..] == t2 && !StartsWith(t1, ".00");
      assert !Contains(t1, ".00");
      assert !StartsWith(t, ".00");
    }
  }

  /**
   colorDoubleToQString prints exactly two decimals except that a ".00" tail becomes
   ".0": 0.50 stays "0.50", 1.00 becomes "1.0".
   */
  lemma ColorDoubleToStringShape(h: int)
    ensures ColorDoubleToString(h) == SignText(h) + NatText(Abs(h) / 100) + "." + Decimals(Abs(h))
  {
    var a := SignText(h) + NatText(Abs(h) / 100);
    var tail := "." + TwoDigits(Abs(h) % 100);
    assert FixedTwoDecimals(h) == a + tail;
    SignAndDigitsHaveNoDot(h);
    ReplaceAllAfterDotFree(a, tail, ".00", ".0");
    DecimalsReplaced(Abs(h) % 100);
  }

  /** Concrete instances of the collapse rule: only a ".00" tail is shortened. */
  lemma ColorDoubleToStringExamples()
    ensures ColorDoubleToString(50) == "0.50"
    ensures ColorDoubleToString(100) == "1.0"
    ensures ColorDoubleToString(-100) == "-1.0"
  {
    HalfText();
    OneText();
    MinusOneText();
  }

  lemma HalfText()
    ensures ColorDoubleToString(50) == "0.50"
  {
    ColorDoubleToStringShape(50);
    assert Decimals(50) == [DigitChar(5), DigitChar(0)] == "50";
    assert NatText(0) == [DigitChar(0)] == "0";
  }

  lemma OneText()
    ensures ColorDoubleToString(100) == "1.0"
  {
    ColorDoubleToStringShape(100);
    assert NatText(1) == [DigitChar(1)] == "1";
    assert Decimals(100) == "0";
  }

  lemma MinusOneText()
    ensures ColorDoubleToString(-100) == "-1.0"
  {
    ColorDoubleToStringShape(-100);
    assert NatText(1) == [DigitChar(1)] == "1";
    assert Decimals(100) == "0";
  }

  /** Zero prints as "0.0": its ".00" collapses too. */
  lemma ColorDoubleToStringOfZero()
    ensures ColorDoubleToString(0) == "0.0"
  {
    ColorDoubleToStringShape(0);
    assert Decimals(0) == "0";
    assert NatText(0) == [DigitChar(0)] == "0";
    assert SignText(0) == "";
  }

  /** The decimals printed for m hundredths after the ".00" collapse. */
  function Decimals(m: nat): (d: string)
    ensures AllDigits(d) && 0 < |d| && DigitsValue(d) == m % 100
  {
    if m % 100 == 0 then
      var d := "0";
      assert d[..0] == [];
      d
    else
      TwoDigits(m % 100)
  }

  /** The unsigned text of m hundredths has the exact value m / 100. */
  lemma UnsignedValueOfHundredths(m: nat)
    ensures UnsignedDecimal(NatText(m / 100) + "." + Decimals(m)) == Some(m as real / 100.0)
  {
    var whole := NatText(m / 100);
    var fraction := Decimals(m);
    UnsignedDecimalOfPointed(whole, fraction);
    DigitsValueOfNatText(m / 100);
    assert m == 100 * (m / 100) + m % 100;
    if m % 100 == 0 {
      assert Pow10(1) == 10;
      assert DecimalValue(whole, fraction) == (m / 100) as real + 0.0;
    } else {
      assert Pow10(2) == 100;
      assert DecimalValue(whole, fraction) == (m / 100) as real + (m % 100) as real / 100.0;
    }
  }

  /** toDouble reads back exactly the value colorDoubleToQString printed. */
  lemma ToDoubleOfColorDoubleToString(h: int)
    ensures ToDouble(ColorDoubleToString(h)) == h as real / 100.0
  {
    ColorDoubleToStringShape(h);
    var m := Abs(h);
    var body := NatText(m / 100) + "." + Decimals(m);
    assert ColorDoubleToString(h) == SignText(h) + body;
    ToDoubleOfSignedHundredths(h);
  }

  /** The sign, then the unsigned text of |h| hundredths, reads back as h / 100. */
  lemma ToDoubleOfSignedHundredths(h: int)
    ensures var m := Abs(h);
            ToDouble(SignText(h) + (NatText(m / 100) + "." + Decimals(m))) == h as real / 100.0
  {
    var m := Abs(h);
    var body := NatText(m / 100) + "." + Decimals(m);
    UnsignedValueOfHundredths(m);
    assert IsDigit(NatText(m / 100)[0]) && body[0] == NatText(m / 100)[0];
    SignedRead(h, body, m as real / 100.0);
  }

  /** A sign for h, then digits worth v: -v when h is negative, v otherwise. */
  lemma SignedRead(h: int, body: string, v: real)
    requires 0 < |body| && IsDigit(body[0]) && UnsignedDecimal(body) == Some(v)
    ensures ToDouble(SignText(h) + body) == if h < 0 then -v else v
  {
    if h < 0 {
      assert SignText(h) + body == "-" + body;
      ToDoubleOfNegated(body, v);
    } else {
      assert SignText(h) + body == body;
      ToDoubleOfUnsigned(body, v);
    }
  }

  // ---------------------------------------------------------------- parsers

  /** The alpha group, when present, read with toDouble (no '%' stripped) and set with setAlphaF. */
  function WithFloatAlpha(c: Option<Color>, alpha: Option<string>): Option<Color> {
    match alpha
    case Some(a) => SetAlphaF(c, ToDouble(a))
    case None => c
  }

  /** The alpha an optional group sets with setAlphaF of its toDouble: clamped to [0, 1]; opaque when absent. */
  function FloatAlpha(alpha: Option<string>): (a: Byte)
    ensures alpha.None? ==> a == Opaque
    ensures alpha.Some? && IsFraction(ToDouble(alpha.value)) ==> a == ByteFromFraction(ToDouble(alpha.value))
  {
    match alpha
    case Some(s) => ByteFromFraction(Clamp01(ToDouble(s)))
    case None => Opaque
  }

  /** parseQCssRgbUChar: three integer channels, then an optional fractional alpha. */
  function ParseQCssRgbUChar(m: Match): (c: Option<Color>)
    ensures c.Some? <==> 0 <= ToInt(m.c1) < 256 && 0 <= ToInt(m.c2) < 256 && 0 <= ToInt(m.c3) < 256
    ensures c.Some? ==> c.value.RgbColor? && c.value.rgb == Rgb(ToInt(m.c1), ToInt(m.c2), ToInt(m.c3))
    ensures c.Some? ==> c.value.alpha == FloatAlpha(m.c4)
  {
    WithFloatAlpha(SetRgb(ToInt(m.c1), ToInt(m.c2), ToInt(m.c3)), m.c4)
  }

  /** A percentage group: '%' removed, read with toDouble, divided by 100. */
  function PercentFraction(s: string): real {
    ToDouble(RemoveAll(s, '%')) / 100.0
  }

  /** parseCssRgbPercent: three percentages, then an optional fractional alpha ('%' not stripped). */
  function ParseCssRgbPercent(m: Match): (c: Option<Color>)
    ensures c.Some? <==> IsFraction(PercentFraction(m.c1)) && IsFraction(PercentFraction(m.c2))
                         && IsFraction(PercentFraction(m.c3))
    ensures c.Some? ==> c.value.RgbColor? && c.value.alpha == FloatAlpha(m.c4)
    ensures c.Some? ==> c.value.rgb == Rgb(ByteFromFraction(PercentFraction(m.c1)), ByteFromFraction(PercentFraction(m.c2)),
                                           ByteFromFraction(PercentFraction(m.c3)))
  {
    WithFloatAlpha(SetRgbF(PercentFraction(m.c1), PercentFraction(m.c2), PercentFraction(m.c3)), m.c4)
  }

  /** parseQssHsv: integer hue, saturation and value, then an optional percentage alpha. */
  function ParseQssHsv(m: Match): (c: Option<Color>)
    ensures c.Some? <==> -1 <= ToInt(m.c1) && 0 <= ToInt(m.c2) < 256 && 0 <= ToInt(m.c3) < 256
    ensures c.Some? ==> c.value.HsvColor? && c.value.hsv.saturation == ToInt(m.c2)
                        && c.value.hsv.value == ToInt(m.c3)
    ensures c.Some? ==> c.value.hsv.hue == WrapHue(ToInt(m.c1))
    ensures c.Some? && m.c4.None? ==> c.value.alpha == Opaque
    ensures c.Some? && m.c4.Some? ==> c.value.alpha == ByteFromFraction(Clamp01(PercentFraction(m.c4.value)))
  {
    var base := SetHsv(ToInt(m.c1), ToInt(m.c2), ToInt(m.c3));
    match m.c4
    case Some(a) => SetAlphaF(base, PercentFraction(a))
    case None => base
  }

  /** A whole percentage turned into a byte the way the HSL parser does it: `toInt * 255 / 100` on C ints. */
  function PercentToByteTruncating(s: string): int {
    CDiv(Wrap32(ToInt(RemoveAll(s, '%')) * 255), 100)
  }

  /** The truncation: 50% reads as 127, not the 128 that rounding would give. */
  lemma PercentToByteTruncatingExample()
    ensures PercentToByteTruncating(NatText(50) + "%") == 127
    ensures PercentToByteTruncating(NatText(100) + "%") == 255
  {
    PercentToByteOfWhole(50);
    PercentToByteOfWhole(100);
  }

  /** A whole percentage n written with '%' reads as n * 255 / 100, truncated. */
  lemma PercentToByteOfWhole(n: nat)
    requires n <= 100
    ensures PercentToByteTruncating(NatText(n) + "%") == n * 255 / 100
  {
    RemovePercent(n);
    ToIntOfNatText(n);
  }

  /** parseCssHsl: integer hue, truncated percentages of saturation and lightness, optional fractional alpha. */
  function ParseCssHsl(m: Match): (c: Option<Color>)
    ensures c.Some? <==> -1 <= ToInt(m.c1) && 0 <= PercentToByteTruncating(m.c2) < 256
                         && 0 <= PercentToByteTruncating(m.c3) < 256
    ensures c.Some? ==> c.value.HslColor? && c.value.hsl.saturation == PercentToByteTruncating(m.c2)
                        && c.value.hsl.lightness == PercentToByteTruncating(m.c3)
    ensures c.Some? ==> c.value.hsl.hue == WrapHue(ToInt(m.c1)) && c.value.alpha == FloatAlpha(m.c4)
  {
    WithFloatAlpha(SetHsl(ToInt(m.c1), PercentToByteTruncating(m.c2), PercentToByteTruncating(m.c3)), m.c4)
  }

  /** parseQmlRgba: four fractions; a missing fourth group reads as 0.0. */
  function ParseQmlRgba(m: Match): (c: Option<Color>)
    ensures c.Some? <==> IsFraction(ToDouble(m.c1)) && IsFraction(ToDouble(m.c2))
                         && IsFraction(ToDouble(m.c3)) && IsFraction(ToDouble(m.c4.GetOr("")))
    ensures c.Some? ==> c.value.RgbColor?
    ensures c.Some? ==> c.value.rgb == Rgb(ByteFromFraction(ToDouble(m.c1)), ByteFromFraction(ToDouble(m.c2)),
                                           ByteFromFraction(ToDouble(m.c3)))
                        && c.value.alpha == ByteFromFraction(ToDouble(m.c4.GetOr("")))
  {
    SetRgbaF(ToDouble(m.c1), ToDouble(m.c2), ToDouble(m.c3), ToDouble(m.c4.GetOr("")))
  }

  /** parseQmlHsla: a fractional hue (or -1.0) and three fractions. */
  function ParseQmlHsla(m: Match): (c: Option<Color>)
    ensures c.Some? <==> (ToDouble(m.c1) == -1.0 || IsFraction(ToDouble(m.c1))) && IsFraction(ToDouble(m.c2))
                         && IsFraction(ToDouble(m.c3)) && IsFraction(ToDouble(m.c4.GetOr("")))
    ensures c.Some? ==> c.value.HslColor?
    ensures c.Some? ==> (c.value.hsl.hue == -1 <==> ToDouble(m.c1) == -1.0)
    ensures c.Some? && ToDouble(m.c1) != -1.0 ==> c.value.hsl.hue == HueFromFraction(ToDouble(m.c1))
    ensures c.Some? ==> c.value.hsl.saturation == ByteFromFraction(ToDouble(m.c2))
                        && c.value.hsl.lightness == ByteFromFraction(ToDouble(m.c3))
                        && c.value.alpha == ByteFromFraction(ToDouble(m.c4.GetOr("")))
  {
    SetHslF(ToDouble(m.c1), ToDouble(m.c2), ToDouble(m.c3), ToDouble(m.c4.GetOr("")))
  }

  /** parseGlslColor: three fractions, then an optional fractional alpha. */
  function ParseGlslColor(m: Match): (c: Option<Color>)
    ensures c.Some? <==> IsFraction(ToDouble(m.c1)) && IsFraction(ToDouble(m.c2)) && IsFraction(ToDouble(m.c3))
    ensures c.Some? ==> c.value.RgbColor? && c.value.alpha == FloatAlpha(m.c4)
    ensures c.Some? ==> c.value.rgb == Rgb(ByteFromFraction(ToDouble(m.c1)), ByteFromFraction(ToDouble(m.c2)),
                                           ByteFromFraction(ToDouble(m.c3)))
  {
    WithFloatAlpha(SetRgbF(ToDouble(m.c1), ToDouble(m.c2), ToDouble(m.c3)), m.c4)
  }

  /** parseHexColor: the whole matched text is given to setNamedColor. */
  function ParseHexColor(m: Match): (c: Option<Color>)
    ensures c.Some? <==> IsHexName(m.whole)
    ensures c.Some? ==> c.value.RgbColor?
    ensures c.Some? && |m.whole| == 7 ==>
              c.value.alpha == Opaque && HexPairValue(m.whole[1], m.whole[2]) == Some(c.value.rgb.red)
              && HexPairValue(m.whole[3], m.whole[4]) == Some(c.value.rgb.green)
              && HexPairValue(m.whole[5], m.whole[6]) == Some(c.value.rgb.blue)
    ensures c.Some? && |m.whole| == 9 ==>
              HexPairValue(m.whole[1], m.whole[2]) == Some(c.value.alpha)
              && HexPairValue(m.whole[3], m.whole[4]) == Some(c.value.rgb.red)
              && HexPairValue(m.whole[5], m.whole[6]) == Some(c.value.rgb.green)
              && HexPairValue(m.whole[7], m.whole[8]) == Some(c.value.rgb.blue)
  {
    SetNamedColor(m.whole)
  }

  /** The one parser that belongs to each format. */
  function ParserFor(format: ColorFormat, m: Match): Option<Color> {
    match format
    case QCssRgbUCharFormat => ParseQCssRgbUChar(m)
    case QCssRgbPercentFormat => ParseCssRgbPercent(m)
    case QssHsvFormat => ParseQssHsv(m)
    case CssHslFormat => ParseCssHsl(m)
    case QmlRgbaFormat => ParseQmlRgba(m)
    case QmlHslaFormat => ParseQmlHsla(m)
    case GlslFormat => ParseGlslColor(m)
    case HexFormat => ParseHexColor(m)
  }

  /**
   parseColor, with its dispatch as written: a lone `if` for the integer RGB format,
   then an `if ... else if` chain for the others, all acting on one colour that starts
   invalid. For every format exactly the one parser of that format takes effect.
   */
  function ParseColor(format: ColorFormat, m: Match): (c: Option<Color>)
    ensures c == ParserFor(format, m)
  {
    var afterFirst := if format == QCssRgbUCharFormat then ParseQCssRgbUChar(m) else None;
    if format == QCssRgbPercentFormat then ParseCssRgbPercent(m)
    else if format == QssHsvFormat then ParseQssHsv(m)
    else if format == CssHslFormat then ParseCssHsl(m)
    else if format == QmlRgbaFormat then ParseQmlRgba(m)
    else if format == QmlHslaFormat then ParseQmlHsla(m)
    else if format == GlslFormat then ParseGlslColor(m)
    else if format == HexFormat then ParseHexColor(m)
    else afterFirst
  }

  // ---------------------------------------------------------------- serialisers

  /** The two-decimal text of the fraction b / 255. */
  function FractionText(b: Byte): string {
    ColorDoubleToString(HundredthsFromByte(b))
  }

  /** alphaF() < 1.0: the alpha is below opaque. */
  predicate Translucent(c: Color) {
    c.alpha < Opaque
  }

  /** cssRgbUCharToQString: "rgb(" and three integers; "rgba(" and a fractional alpha when translucent. */
  function CssRgbUCharToString(c: Color, space: ColorSpace): Literal {
    var rgb := RgbOf(c, space);
    var parts := NatText(rgb.red) + ", " + NatText(rgb.green) + ", " + NatText(rgb.blue);
    if Translucent(c) then Literal(Insert("rgb(", 3, 'a'), parts + ", " + FractionText(c.alpha))
    else Literal("rgb(", parts)
  }

  /** cssRgbPercentToQString: three rounded percentages; a fractional alpha when translucent. */
  function CssRgbPercentToString(c: Color, space: ColorSpace): Literal {
    var rgb := RgbOf(c, space);
    var parts := (NatText(HundredthsFromByte(rgb.red)) + "%") + ", "
                 + (NatText(HundredthsFromByte(rgb.green)) + "%") + ", "
                 + (NatText(HundredthsFromByte(rgb.blue)) + "%");
    if Translucent(c) then Literal(Insert("rgb(", 3, 'a'), parts + ", " + FractionText(c.alpha))
    else Literal("rgb(", parts)
  }

  /** qssHsvToQString: integer hue, saturation and value; a percentage alpha when it rounds below 100. */
  function QssHsvToString(c: Color, space: ColorSpace): Literal {
    var hsv := HsvOf(c, space);
    var parts := IntText(hsv.hue) + ", " + NatText(hsv.saturation) + ", " + NatText(hsv.value);
    var aP := HundredthsFromByte(c.alpha);
    if aP < 100 then Literal(Insert("hsv(", 3, 'a'), parts + ", " + NatText(aP) + "%")
    else Literal("hsv(", parts)
  }

  /** cssHslToQString: integer hue, rounded saturation and lightness percentages; a fractional alpha when translucent. */
  function CssHslToString(c: Color, space: ColorSpace): Literal {
    var hsl := HslOf(c, space);
    var parts := IntText(hsl.hue) + ", "
                 + (NatText(HundredthsFromByte(hsl.saturation)) + "%") + ", "
                 + (NatText(HundredthsFromByte(hsl.lightness)) + "%");
    if Translucent(c) then Literal(Insert("hsl(", 3, 'a'), parts + ", " + FractionText(c.alpha))
    else Literal("hsl(", parts)
  }

  /** qmlRgbaToQString: four fractions, always. */
  function QmlRgbaToString(c: Color, space: ColorSpace): Literal {
    var rgb := RgbOf(c, space);
    Literal("Qt.rgba(", FractionText(rgb.red) + ", " + FractionText(rgb.green) + ", "
                        + FractionText(rgb.blue) + ", " + FractionText(c.alpha))
  }

  /** qmlHslaToQString: the HSV hue and saturation, the HSL lightness and the alpha, as fractions. */
  function QmlHslaToString(c: Color, space: ColorSpace): Literal {
    var hsv := HsvOf(c, space);
    var hsl := HslOf(c, space);
    Literal("Qt.hsla(", ColorDoubleToString(HueHundredths(hsv.hue)) + ", " + FractionText(hsv.saturation) + ", "
                        + FractionText(hsl.lightness) + ", " + FractionText(c.alpha))
  }

  /** glslColorToQString: "vec3(" and three fractions, or "vec4(" with the alpha when translucent. */
  function GlslColorToString(c: Color, space: ColorSpace): Literal {
    var rgb := RgbOf(c, space);
    var parts := FractionText(rgb.red) + ", " + FractionText(rgb.green) + ", " + FractionText(rgb.blue);
    if Translucent(c) then Literal("vec" + "4" + "(", parts + ", " + FractionText(c.alpha))
    else Literal("vec" + "3" + "(", parts)
  }

  /** hexColorToQString: upper-case "RRGGBB", or "AARRGGBB" with the alpha first when translucent. */
  function HexColorToString(c: Color, space: ColorSpace): Literal {
    var rgb := RgbOf(c, space);
    if c.alpha < 255 then
      Literal("#", HexByteUpper(c.alpha) + HexByteUpper(rgb.red) + HexByteUpper(rgb.green) + HexByteUpper(rgb.blue))
    else
      Literal("#", HexByteUpper(rgb.red) + HexByteUpper(rgb.green) + HexByteUpper(rgb.blue))
  }

  /** The one serialiser that belongs to each format. */
  function SerialiserFor(c: Color, format: ColorFormat, space: ColorSpace): Literal {
    match format
    case QCssRgbUCharFormat => CssRgbUCharToString(c, space)
    case QCssRgbPercentFormat => CssRgbPercentToString(c, space)
    case QssHsvFormat => QssHsvToString(c, space)
    case CssHslFormat => CssHslToString(c, space)
    case QmlRgbaFormat => QmlRgbaToString(c, space)
    case QmlHslaFormat => QmlHslaToString(c, space)
    case GlslFormat => GlslColorToString(c, space)
    case HexFormat => HexColorToString(c, space)
  }

  /**
   The serialiser colorToString runs, with its dispatch as written (a lone `if`, then an
   `if ... else if` chain, over a prefix and parts that start null): exactly the one
   serialiser of the format takes effect.
   */
  function Serialise(c: Color, format: ColorFormat, space: ColorSpace): (lit: Literal)
    ensures lit == SerialiserFor(c, format, space)
  {
    var afterFirst := if format == QCssRgbUCharFormat then Some(CssRgbUCharToString(c, space)) else None;
    var afterChain :=
      if format == QCssRgbPercentFormat then Some(CssRgbPercentToString(c, space))
      else if format == QssHsvFormat then Some(QssHsvToString(c, space))
      else if format == CssHslFormat then Some(CssHslToString(c, space))
      else if format == QmlRgbaFormat then Some(QmlRgbaToString(c, space))
      else if format == QmlHslaFormat then Some(QmlHslaToString(c, space))
      else if format == GlslFormat then Some(GlslColorToString(c, space))
      else if format == HexFormat then Some(HexColorToString(c, space))
      else afterFirst;
    afterChain.GetOr(Literal("", ""))
  }

  /** The text of a literal: prefix and parts, closed with ')' unless it is hexadecimal. */
  function Render(lit: Literal, format: ColorFormat): string {
    lit.prefix + lit.parts + (if format != HexFormat then ")" else "")
  }

  /** colorToString. */
  function ColorToString(c: Color, format: ColorFormat, space: ColorSpace): (s: string)
    ensures 0 < |s|
    ensures s[|s| - 1] == ')' <==> format != HexFormat
    ensures s[0] == '#' <==> format == HexFormat
  {
    var lit := Serialise(c, format, space);
    PrefixShape(c, format, space);
    HexPartsEnd(c, space);
    RenderEnds(lit, format);
    Render(lit, format)
  }

  /** Every prefix is non-empty, and only the hexadecimal one starts with '#'. */
  lemma PrefixShape(c: Color, format: ColorFormat, space: ColorSpace)
    ensures var p := SerialiserFor(c, format, space).prefix;
            0 < |p| && (p[0] == '#' <==> format == HexFormat)
  {
    PrefixRule(c, format, space);
    match format
    case QCssRgbUCharFormat =>
    case QCssRgbPercentFormat =>
    case QssHsvFormat =>
    case CssHslFormat =>
    case QmlRgbaFormat =>
    case QmlHslaFormat =>
    case GlslFormat =>
    case HexFormat =>
  }

  /** A rendered literal starts with its prefix and ends with ')' unless it is hexadecimal. */
  lemma RenderEnds(lit: Literal, format: ColorFormat)
    requires 0 < |lit.prefix| && (lit.prefix[0] == '#' <==> format == HexFormat)
    requires format == HexFormat ==> 0 < |lit.parts| && lit.parts[|lit.parts| - 1] != ')'
    ensures var s := Render(lit, format);
            0 < |s| && (s[|s| - 1] == ')' <==> format != HexFormat) && (s[0] == '#' <==> format == HexFormat)
  {
    var s := Render(lit, format);
    assert s[0] == lit.prefix[0];
    if format == HexFormat {
      assert s[|s| - 1] == lit.parts[|lit.parts| - 1];
    }
  }

  /** Which prefix each serialiser writes: the 'a' infix and the vec3 / vec4 choice follow the alpha. */
  lemma PrefixRule(c: Color, format: ColorFormat, space: ColorSpace)
    ensures SerialiserFor(c, format, space).prefix == (match format
      case QCssRgbUCharFormat => if Translucent(c) then "rgba(" else "rgb("
      case QCssRgbPercentFormat => if Translucent(c) then "rgba(" else "rgb("
      case QssHsvFormat => if HundredthsFromByte(c.alpha) < 100 then "hsva(" else "hsv("
      case CssHslFormat => if Translucent(c) then "hsla(" else "hsl("
      case QmlRgbaFormat => "Qt.rgba("
      case QmlHslaFormat => "Qt.hsla("
      case GlslFormat => if Translucent(c) then "vec4(" else "vec3("
      case HexFormat => "#")
  {
    AlphaPrefixes();
  }

  /** The alpha prefixes, spelt out: an 'a' inserted before the '(' of the CSS ones, and vec4. */
  lemma AlphaPrefixes()
    ensures Insert("rgb(", 3, 'a') == "rgba(" && Insert("hsv(", 3, 'a') == "hsva(" && Insert("hsl(", 3, 'a') == "hsla("
    ensures "vec" + "4" + "(" == "vec4(" && "vec" + "3" + "(" == "vec3("
  {
  }

  /** A hexadecimal literal's parts are six or eight digits, so its last character is a digit. */
  lemma HexPartsEnd(c: Color, space: ColorSpace)
    ensures var p := HexColorToString(c, space).parts;
            (|p| == 8 <==> Translucent(c)) && (|p| == 6 <==> !Translucent(c))
            && 0 < |p| && p[|p| - 1] != ')'
  {
    var rgb := RgbOf(c, space);
    var b := HexByteUpper(rgb.blue);
    assert HexPairValue(b[0], b[1]).Some?;
  }

  // ---------------------------------------------------------------- captures

  /**
   The capture groups the colour pattern yields for a literal: the components split at
   ", ", the fourth one optional; the whole match is the rendered text.
   */
  function MatchOf(lit: Literal, format: ColorFormat): Match {
    var fields := Split(lit.parts);
    Match(Render(lit, format),
          fields[0],
          if 1 < |fields| then fields[1] else "",
          if 2 < |fields| then fields[2] else "",
          if 3 < |fields| then Some(fields[3]) else None)
  }

  lemma NoCommaConcat(a: string, b: string)
    requires NoComma(a) && NoComma(b)
    ensures NoComma(a + b)
  {
    forall k | 0 <= k < |a + b| ensures (a + b)[k] != ',' {
      if k < |a| { assert (a + b)[k] == a[k]; } else { assert (a + b)[k] == b[k - |a|]; }
    }
  }

  lemma NatTextNoComma(n: nat)
    ensures NoComma(NatText(n))
  {
    DigitsHaveNoComma(NatText(n));
  }

  lemma IntTextNoComma(i: int)
    ensures NoComma(IntText(i))
  {
    if i < 0 {
      NatTextNoComma(-i);
      NoCommaConcat("-", NatText(-i));
    } else {
      NatTextNoComma(i);
    }
  }

  lemma PercentTextNoComma(n: nat)
    ensures NoComma(NatText(n) + "%")
  {
    NatTextNoComma(n);
    NoCommaConcat(NatText(n), "%");
  }

  lemma DoubleTextNoComma(h: int)
    ensures NoComma(ColorDoubleToString(h))
  {
    ColorDoubleToStringShape(h);
    var m := Abs(h);
    var d := Decimals(m);
    NatTextNoComma(m / 100);
    DigitsHaveNoComma(d);
    NoCommaConcat(SignText(h), NatText(m / 100));
    NoCommaConcat(SignText(h) + NatText(m / 100), ".");
    NoCommaConcat(SignText(h) + NatText(m / 100) + ".", d);
  }

  /** A comma-free first field splits off at the first ", ". */
  lemma SplitCons(a: string, rest: string)
    requires NoComma(a)
    ensures Split(a + ", " + rest) == [a] + Split(rest)
  {
    var s := a + ", " + rest;
    assert s == a + (", " + rest);
    CommaIndexAfter(a, ", " + rest);
    assert s[..|a|] == a;
    assert s[|a| + 2..] == rest;
  }

  /** A comma-free text is one field. */
  lemma SplitOne(a: string)
    requires NoComma(a)
    ensures Split(a) == [a]
  {
    CommaIndexAfter(a, "");
    assert a + "" == a;
  }

  /** Concatenation regroups. */
  lemma Regroup(x: string, y: string, z: string)
    ensures x + y + z == x + (y + z)
  {
  }

  /** Joining with ", " regroups to the right. */
  lemma JoinedRegroup(a: string, b: string, c: string)
    ensures a + ", " + b + ", " + c == a + ", " + (b + ", " + c)
  {
    var x := a + ", ";
    Regroup(x, b, ", ");
    Regroup(x, b + ", ", c);
  }

  /** Joining four fields with ", " regroups to the right after the first. */
  lemma JoinedRegroupFour(a: string, b: string, c: string, d: string)
    ensures a + ", " + b + ", " + c + ", " + d == a + ", " + (b + ", " + c + ", " + d)
  {
    var x, bc := a + ", ", b + ", " + c;
    JoinedRegroup(a, b, c);
    Regroup(x, bc, ", ");
    Regroup(x, bc + ", ", d);
  }

  /** Three comma-free fields joined by ", " split back into those fields. */
  lemma SplitThree(a: string, b: string, c: string)
    requires NoComma(a) && NoComma(b) && NoComma(c)
    ensures Split(a + ", " + b + ", " + c) == [a, b, c]
  {
    JoinedRegroup(a, b, c);
    SplitCons(a, b + ", " + c);
    SplitCons(b, c);
    SplitOne(c);
  }

  /** Four comma-free fields joined by ", " split back into those fields. */
  lemma SplitFour(a: string, b: string, c: string, d: string)
    requires NoComma(a) && NoComma(b) && NoComma(c) && NoComma(d)
    ensures Split(a + ", " + b + ", " + c + ", " + d) == [a, b, c, d]
  {
    var fields := [a, b, c, d];
    assert Join(fields[3..]) == d;
    assert Join(fields[2..]) == c + ", " + d;
    JoinedRegroup(b, c, d);
    assert Join(fields[1..]) == b + ", " + c + ", " + d;
    JoinedRegroupFour(a, b, c, d);
    assert Join(fields) == a + ", " + b + ", " + c + ", " + d;
    SplitJoin(fields);
  }

  // ---------------------------------------------------------------- reading fields back

  lemma ToIntOfByteText(b: Byte)
    ensures ToInt(NatText(b)) == b
  {
    ToIntOfNatText(b);
  }

  /** A printed percentage loses its '%' and reads back as the number. */
  lemma RemovePercent(n: nat)
    ensures RemoveAll(NatText(n) + "%", '%') == NatText(n)
  {
    DigitsHaveNoDot(NatText(n));
    assert '%' !in NatText(n) by {
      forall k | 0 <= k < |NatText(n)| ensures NatText(n)[k] != '%' {
        assert IsDigit(NatText(n)[k]);
      }
    }
    RemoveAllTrailing(NatText(n), '%');
  }

  /** A printed percentage of h reads back as the fraction h / 100. */
  lemma PercentFractionOfText(h: nat)
    ensures PercentFraction(NatText(h) + "%") == h as real / 100.0
  {
    RemovePercent(h);
    ToDoubleOfNatText(h);
  }

  /** A printed two-decimal fraction of a byte, read back and stored, gives the requantised byte. */
  lemma StoreFractionText(b: Byte)
    ensures IsFraction(ToDouble(FractionText(b)))
    ensures ByteFromFraction(ToDouble(FractionText(b))) == Requantised(b)
  {
    ToDoubleOfColorDoubleToString(HundredthsFromByte(b));
    ByteFromHundredthsRounds(HundredthsFromByte(b));
  }

  /** A translucent alpha field, read back by setAlphaF, gives the requantised alpha. */
  lemma FloatAlphaOfText(base: Color, b: Byte)
    ensures WithFloatAlpha(Some(base), Some(FractionText(b))) == Some(base.(alpha := Requantised(b)))
  {
    StoreFractionText(b);
  }

  // ---------------------------------------------------------------- round trips

  /**
   A literal's groups: three components and, when `shown`, a fourth. Stating the split
   once per serialiser keeps each round trip short.
   */
  predicate GroupsAre(m: Match, a: string, b: string, c: string, d: Option<string>) {
    m.c1 == a && m.c2 == b && m.c3 == c && m.c4 == d
  }

  /** The groups of three comma-free components and an optional fourth. */
  lemma GroupsOfParts(lit: Literal, format: ColorFormat, a: string, b: string, c: string, d: Option<string>)
    requires NoComma(a) && NoComma(b) && NoComma(c) && (d.Some? ==> NoComma(d.value))
    requires lit.parts == if d.Some? then a + ", " + b + ", " + c + ", " + d.value else a + ", " + b + ", " + c
    ensures GroupsAre(MatchOf(lit, format), a, b, c, d)
    ensures |Split(lit.parts)| == (if d.Some? then 4 else 3)
  {
    match d
    case Some(x) => SplitFour(a, b, c, x);
    case None => SplitThree(a, b, c);
  }

  /** The optional alpha text of the literals that write it as a two-decimal fraction. */
  function AlphaText(c: Color): Option<string> {
    if Translucent(c) then Some(FractionText(c.alpha)) else None
  }

  /** Reading back the optional fractional alpha of a literal gives the requantised alpha. */
  lemma FloatAlphaBack(base: Color, c: Color)
    requires base.alpha == Opaque
    ensures WithFloatAlpha(Some(base), AlphaText(c)) == Some(base.(alpha := Requantised(c.alpha)))
  {
    if Translucent(c) {
      FloatAlphaOfText(base, c.alpha);
    } else {
      HundredthsOfFull(c.alpha);
      assert AlphaText(c) == None && c.alpha == Opaque;
    }
  }

  lemma RgbUCharGroups(c: Color, space: ColorSpace)
    ensures var rgb := RgbOf(c, space);
            GroupsAre(MatchOf(CssRgbUCharToString(c, space), QCssRgbUCharFormat),
                      NatText(rgb.red), NatText(rgb.green), NatText(rgb.blue), AlphaText(c))
    ensures |Split(CssRgbUCharToString(c, space).parts)| == if Translucent(c) then 4 else 3
  {
    var rgb := RgbOf(c, space);
    NatTextNoComma(rgb.red);
    NatTextNoComma(rgb.green);
    NatTextNoComma(rgb.blue);
    DoubleTextNoComma(HundredthsFromByte(c.alpha));
    GroupsOfParts(CssRgbUCharToString(c, space), QCssRgbUCharFormat,
                  NatText(rgb.red), NatText(rgb.green), NatText(rgb.blue), AlphaText(c));
  }

  /**
   Integer RGB: parsing the literal back gives the same red, green and blue, as an RGB
   colour, with the alpha requantised to hundredths (an opaque one exactly).
   */
  lemma RgbUCharRoundTrip(c: Color, space: ColorSpace)
    ensures ParseQCssRgbUChar(MatchOf(CssRgbUCharToString(c, space), QCssRgbUCharFormat))
            == Some(RgbColor(RgbOf(c, space), Requantised(c.alpha)))
  {
    RgbUCharGroups(c, space);
    RgbUCharParsesGroups(MatchOf(CssRgbUCharToString(c, space), QCssRgbUCharFormat), RgbOf(c, space), c);
  }

  /** Integer channel groups and the optional fraction, read back by parseQCssRgbUChar. */
  lemma RgbUCharParsesGroups(m: Match, rgb: Rgb, c: Color)
    requires GroupsAre(m, NatText(rgb.red), NatText(rgb.green), NatText(rgb.blue), AlphaText(c))
    ensures ParseQCssRgbUChar(m) == Some(RgbColor(rgb, Requantised(c.alpha)))
  {
    ToIntOfByteText(rgb.red);
    ToIntOfByteText(rgb.green);
    ToIntOfByteText(rgb.blue);
    assert ToInt(m.c1) == rgb.red && ToInt(m.c2) == rgb.green && ToInt(m.c3) == rgb.blue;
    assert SetRgb(ToInt(m.c1), ToInt(m.c2), ToInt(m.c3)) == Some(RgbColor(rgb, Opaque));
    FloatAlphaBack(RgbColor(rgb, Opaque), c);
    assert m.c4 == AlphaText(c);
  }

  /** A channel printed as a percentage, read back and stored, is requantised. */
  lemma PercentChannelBack(b: Byte)
    ensures var f := PercentFraction(NatText(HundredthsFromByte(b)) + "%");
            IsFraction(f) && ByteFromFraction(f) == Requantised(b)
  {
    PercentFractionOfText(HundredthsFromByte(b));
    ByteFromHundredthsRounds(HundredthsFromByte(b));
  }

  lemma RgbPercentGroups(c: Color, space: ColorSpace)
    ensures var rgb := RgbOf(c, space);
            GroupsAre(MatchOf(CssRgbPercentToString(c, space), QCssRgbPercentFormat),
                      NatText(HundredthsFromByte(rgb.red)) + "%", NatText(HundredthsFromByte(rgb.green)) + "%",
                      NatText(HundredthsFromByte(rgb.blue)) + "%", AlphaText(c))
    ensures |Split(CssRgbPercentToString(c, space).parts)| == if Translucent(c) then 4 else 3
  {
    var rgb := RgbOf(c, space);
    PercentTextNoComma(HundredthsFromByte(rgb.red));
    PercentTextNoComma(HundredthsFromByte(rgb.green));
    PercentTextNoComma(HundredthsFromByte(rgb.blue));
    DoubleTextNoComma(HundredthsFromByte(c.alpha));
    GroupsOfParts(CssRgbPercentToString(c, space), QCssRgbPercentFormat,
                  NatText(HundredthsFromByte(rgb.red)) + "%", NatText(HundredthsFromByte(rgb.green)) + "%",
                  NatText(HundredthsFromByte(rgb.blue)) + "%", AlphaText(c));
  }

  /** The colour whose channels are the requantised channels of `rgb`, opaque. */
  function RequantisedRgb(rgb: Rgb): Rgb {
    Rgb(Requantised(rgb.red), Requantised(rgb.green), Requantised(rgb.blue))
  }

  /**
   RGB percentages: each channel comes back as the byte its percentage stands for (the
   channel itself when it lies on the hundredths grid), and the alpha requantised.
   */
  lemma RgbPercentRoundTrip(c: Color, space: ColorSpace)
    ensures ParseCssRgbPercent(MatchOf(CssRgbPercentToString(c, space), QCssRgbPercentFormat))
            == Some(RgbColor(RequantisedRgb(RgbOf(c, space)), Requantised(c.alpha)))
  {
    RgbPercentGroups(c, space);
    RgbPercentParsesGroups(MatchOf(CssRgbPercentToString(c, space), QCssRgbPercentFormat), RgbOf(c, space), c);
  }

  /** Percentage channel groups and the optional fraction, read back by parseCssRgbPercent. */
  lemma RgbPercentParsesGroups(m: Match, rgb: Rgb, c: Color)
    requires GroupsAre(m, NatText(HundredthsFromByte(rgb.red)) + "%", NatText(HundredthsFromByte(rgb.green)) + "%", NatText(HundredthsFromByte(rgb.blue)) + "%", AlphaText(c))
    ensures ParseCssRgbPercent(m) == Some(RgbColor(RequantisedRgb(rgb), Requantised(c.alpha)))
  {
    PercentChannelBack(rgb.red);
    PercentChannelBack(rgb.green);
    PercentChannelBack(rgb.blue);
    var base := RgbColor(RequantisedRgb(rgb), Opaque);
    assert SetRgbF(PercentFraction(m.c1), PercentFraction(m.c2), PercentFraction(m.c3)) == Some(base);
    FloatAlphaBack(base, c);
    assert m.c4 == AlphaText(c);
  }

  /** The optional alpha text of the HSV literal: a whole percentage. */
  function HsvAlphaText(c: Color): Option<string> {
    var aP := HundredthsFromByte(c.alpha);
    if aP < 100 then Some(NatText(aP) + "%") else None
  }

  lemma HsvGroups(c: Color, space: ColorSpace)
    ensures var hsv := HsvOf(c, space);
            GroupsAre(MatchOf(QssHsvToString(c, space), QssHsvFormat),
                      IntText(hsv.hue), NatText(hsv.saturation), NatText(hsv.value), HsvAlphaText(c))
    ensures |Split(QssHsvToString(c, space).parts)| == if HundredthsFromByte(c.alpha) < 100 then 4 else 3
  {
    var hsv := HsvOf(c, space);
    IntTextNoComma(hsv.hue);
    NatTextNoComma(hsv.saturation);
    NatTextNoComma(hsv.value);
    PercentTextNoComma(HundredthsFromByte(c.alpha));
    GroupsOfParts(QssHsvToString(c, space), QssHsvFormat,
                  IntText(hsv.hue), NatText(hsv.saturation), NatText(hsv.value), HsvAlphaText(c));
  }

  /**
   HSV: hue, saturation and value come back exactly (the achromatic hue -1 included) as
   an HSV colour, with the alpha requantised; an alpha of 254 is written as opaque.
   */
  lemma HsvRoundTrip(c: Color, space: ColorSpace)
    ensures ParseQssHsv(MatchOf(QssHsvToString(c, space), QssHsvFormat))
            == Some(HsvColor(HsvOf(c, space), Requantised(c.alpha)))
  {
    HsvGroups(c, space);
    HsvParsesGroups(MatchOf(QssHsvToString(c, space), QssHsvFormat), HsvOf(c, space), c);
  }

  /** HSV groups and the optional percentage, read back by parseQssHsv. */
  lemma HsvParsesGroups(m: Match, hsv: Hsv, c: Color)
    requires GroupsAre(m, IntText(hsv.hue), NatText(hsv.saturation), NatText(hsv.value), HsvAlphaText(c))
    ensures ParseQssHsv(m) == Some(HsvColor(hsv, Requantised(c.alpha)))
  {
    ToIntOfIntText(hsv.hue);
    ToIntOfByteText(hsv.saturation);
    ToIntOfByteText(hsv.value);
    assert ToInt(m.c1) == hsv.hue && ToInt(m.c2) == hsv.saturation && ToInt(m.c3) == hsv.value;
    var base := HsvColor(hsv, Opaque);
    assert SetHsv(ToInt(m.c1), ToInt(m.c2), ToInt(m.c3)) == Some(base);
    HsvAlphaBack(base, c);
    assert m.c4 == HsvAlphaText(c);
  }

  /** Reading back the HSV literal's optional alpha percentage gives the requantised alpha. */
  lemma HsvAlphaBack(base: Color, c: Color)
    requires base.alpha == Opaque
    ensures (match HsvAlphaText(c)
             case Some(a) => SetAlphaF(Some(base), PercentFraction(a))
             case None => Some(base))
            == Some(base.(alpha := Requantised(c.alpha)))
  {
    var aP := HundredthsFromByte(c.alpha);
    HundredthsOfFull(c.alpha);
    if aP < 100 {
      PercentFractionOfText(aP);
      ByteFromHundredthsRounds(aP);
    } else {
      assert ByteFromHundredths(100) == 25550 / 100 == 255;
    }
  }

  /** The byte a saturation or lightness comes back as: its rounded percentage times 255 / 100, truncated. */
  function TruncatedPercent(b: Byte): Byte {
    HundredthsFromByte(b) * 255 / 100
  }

  /** A printed whole percentage read back by the HSL parser. */
  lemma PercentToByteOfText(b: Byte)
    ensures PercentToByteTruncating(NatText(HundredthsFromByte(b)) + "%") == TruncatedPercent(b)
  {
    var h := HundredthsFromByte(b);
    RemovePercent(h);
    ToIntOfNatText(h);
  }

  lemma HslGroups(c: Color, space: ColorSpace)
    ensures var hsl := HslOf(c, space);
            GroupsAre(MatchOf(CssHslToString(c, space), CssHslFormat),
                      IntText(hsl.hue), NatText(HundredthsFromByte(hsl.saturation)) + "%",
                      NatText(HundredthsFromByte(hsl.lightness)) + "%", AlphaText(c))
    ensures |Split(CssHslToString(c, space).parts)| == if Translucent(c) then 4 else 3
  {
    var hsl := HslOf(c, space);
    IntTextNoComma(hsl.hue);
    PercentTextNoComma(HundredthsFromByte(hsl.saturation));
    PercentTextNoComma(HundredthsFromByte(hsl.lightness));
    DoubleTextNoComma(HundredthsFromByte(c.alpha));
    GroupsOfParts(CssHslToString(c, space), CssHslFormat,
                  IntText(hsl.hue), NatText(HundredthsFromByte(hsl.saturation)) + "%",
                  NatText(HundredthsFromByte(hsl.lightness)) + "%", AlphaText(c));
  }

  /**
   HSL: the hue comes back exactly except that 360 wraps to 0; saturation and lightness
   come back through truncated percentages, exact on the truncation grid; the alpha
   comes back requantised.
   */
  lemma HslRoundTrip(c: Color, space: ColorSpace)
    ensures ParseCssHsl(MatchOf(CssHslToString(c, space), CssHslFormat))
            == var hsl := HslOf(c, space);
               Some(HslColor(Hsl(WrapHue(hsl.hue), TruncatedPercent(hsl.saturation), TruncatedPercent(hsl.lightness)),
                             Requantised(c.alpha)))
  {
    HslGroups(c, space);
    HslParsesGroups(MatchOf(CssHslToString(c, space), CssHslFormat), HslOf(c, space), c);
  }

  /** HSL groups and the optional fraction, read back by parseCssHsl. */
  lemma HslParsesGroups(m: Match, hsl: Hsl, c: Color)
    requires GroupsAre(m, IntText(hsl.hue), NatText(HundredthsFromByte(hsl.saturation)) + "%", NatText(HundredthsFromByte(hsl.lightness)) + "%", AlphaText(c))
    ensures ParseCssHsl(m) == Some(HslColor(Hsl(WrapHue(hsl.hue), TruncatedPercent(hsl.saturation),
                                                TruncatedPercent(hsl.lightness)), Requantised(c.alpha)))
  {
    ToIntOfIntText(hsl.hue);
    PercentToByteOfText(hsl.saturation);
    PercentToByteOfText(hsl.lightness);
    var back := Hsl(WrapHue(hsl.hue), TruncatedPercent(hsl.saturation), TruncatedPercent(hsl.lightness));
    assert SetHsl(ToInt(m.c1), PercentToByteTruncating(m.c2), PercentToByteTruncating(m.c3))
           == Some(HslColor(back, Opaque));
    FloatAlphaBack(HslColor(back, Opaque), c);
    assert m.c4 == AlphaText(c);
  }

  /** On the truncation grid, and below 360 degrees, the HSL literal is lossless for an opaque HSL colour. */
  lemma HslLosslessOnGrid(c: Color, space: ColorSpace)
    requires c.HslColor? && c.alpha == Opaque && c.hsl.hue < 360
    requires OnPercentTruncationGrid(c.hsl.saturation) && OnPercentTruncationGrid(c.hsl.lightness)
    ensures ParseColor(CssHslFormat, MatchOf(Serialise(c, CssHslFormat, space), CssHslFormat)) == Some(c)
  {
    var hsl := c.hsl;
    assert HslOf(c, space) == hsl;
    assert Hsl(WrapHue(hsl.hue), TruncatedPercent(hsl.saturation), TruncatedPercent(hsl.lightness)) == hsl;
    HundredthsOfFull(c.alpha);
    assert HslColor(hsl, Requantised(c.alpha)) == c;
    HslRoundTrip(c, space);
    assert Serialise(c, CssHslFormat, space) == CssHslToString(c, space);
  }

  lemma QmlRgbaGroups(c: Color, space: ColorSpace)
    ensures var rgb := RgbOf(c, space);
            GroupsAre(MatchOf(QmlRgbaToString(c, space), QmlRgbaFormat),
                      FractionText(rgb.red), FractionText(rgb.green), FractionText(rgb.blue),
                      Some(FractionText(c.alpha)))
    ensures |Split(QmlRgbaToString(c, space).parts)| == 4
  {
    var rgb := RgbOf(c, space);
    DoubleTextNoComma(HundredthsFromByte(rgb.red));
    DoubleTextNoComma(HundredthsFromByte(rgb.green));
    DoubleTextNoComma(HundredthsFromByte(rgb.blue));
    DoubleTextNoComma(HundredthsFromByte(c.alpha));
    GroupsOfParts(QmlRgbaToString(c, space), QmlRgbaFormat,
                  FractionText(rgb.red), FractionText(rgb.green), FractionText(rgb.blue), Some(FractionText(c.alpha)));
  }

  /** Qt.rgba: the four fractions come back as the requantised channels and alpha. */
  lemma QmlRgbaRoundTrip(c: Color, space: ColorSpace)
    ensures ParseQmlRgba(MatchOf(QmlRgbaToString(c, space), QmlRgbaFormat))
            == Some(RgbColor(RequantisedRgb(RgbOf(c, space)), Requantised(c.alpha)))
  {
    QmlRgbaGroups(c, space);
    QmlRgbaParsesGroups(MatchOf(QmlRgbaToString(c, space), QmlRgbaFormat), RgbOf(c, space), c.alpha);
  }

  /** Four fraction groups, read back by parseQmlRgba. */
  lemma QmlRgbaParsesGroups(m: Match, rgb: Rgb, alpha: Byte)
    requires GroupsAre(m, FractionText(rgb.red), FractionText(rgb.green), FractionText(rgb.blue),
                       Some(FractionText(alpha)))
    ensures ParseQmlRgba(m) == Some(RgbColor(RequantisedRgb(rgb), Requantised(alpha)))
  {
    StoreFractionText(rgb.red);
    StoreFractionText(rgb.green);
    StoreFractionText(rgb.blue);
    StoreFractionText(alpha);
  }

  lemma QmlHslaGroups(c: Color, space: ColorSpace)
    ensures var hsv := HsvOf(c, space);
            var hsl := HslOf(c, space);
            GroupsAre(MatchOf(QmlHslaToString(c, space), QmlHslaFormat),
                      ColorDoubleToString(HueHundredths(hsv.hue)), FractionText(hsv.saturation),
                      FractionText(hsl.lightness), Some(FractionText(c.alpha)))
    ensures |Split(QmlHslaToString(c, space).parts)| == 4
  {
    var hsv := HsvOf(c, space);
    var hsl := HslOf(c, space);
    DoubleTextNoComma(HueHundredths(hsv.hue));
    DoubleTextNoComma(HundredthsFromByte(hsv.saturation));
    DoubleTextNoComma(HundredthsFromByte(hsl.lightness));
    DoubleTextNoComma(HundredthsFromByte(c.alpha));
    GroupsOfParts(QmlHslaToString(c, space), QmlHslaFormat,
                  ColorDoubleToString(HueHundredths(hsv.hue)), FractionText(hsv.saturation),
                  FractionText(hsl.lightness), Some(FractionText(c.alpha)));
  }

  /** The HSL hue a Qt.hsla literal's first component is read back as. */
  function HslHueOfHundredths(k: int): HslHue
    requires k == -100 || 0 <= k <= 100
  {
    if k < 0 then -1 else HueFromFraction(k as real / 100.0)
  }

  /** The first component of a Qt.hsla literal is -1.0 exactly for the achromatic hue, and a fraction otherwise. */
  lemma HueFractionBack(k: int)
    requires k == -100 || 0 <= k <= 100
    ensures var f := k as real / 100.0;
            (f == -1.0 <==> k < 0) && (0 <= k ==> IsFraction(f))
  {
  }

  /**
   Qt.hsla: parsing back gives an HSL colour whose hue is the HSV hue (rounded to
   hundredths of a turn) and whose saturation is the HSV saturation, because the
   serialiser writes hueF() and saturationF(), which are HSV, beside the HSL lightness.
   */
  lemma QmlHslaRoundTrip(c: Color, space: ColorSpace)
    ensures ParseQmlHsla(MatchOf(QmlHslaToString(c, space), QmlHslaFormat))
            == var hsv := HsvOf(c, space);
               Some(HslColor(Hsl(HslHueOfHundredths(HueHundredths(hsv.hue)), Requantised(hsv.saturation),
                                 Requantised(HslOf(c, space).lightness)),
                             Requantised(c.alpha)))
  {
    var hsv := HsvOf(c, space);
    QmlHslaGroups(c, space);
    HslaTextsBack(HueHundredths(hsv.hue), hsv.saturation, HslOf(c, space).lightness, c.alpha);
  }

  /** A hue of 27 degrees prints as 0.07 of a turn and so reads back as 25 degrees. */
  lemma QmlHslaTieHueExample()
    ensures HslHueOfHundredths(HueHundredths(27)) == 25
  {
  }

  /** The four components of a Qt.hsla literal, read back by setHslF. */
  lemma HslaTextsBack(k: int, sat: Byte, light: Byte, alpha: Byte)
    requires k == -100 || 0 <= k <= 100
    ensures SetHslF(ToDouble(ColorDoubleToString(k)), ToDouble(FractionText(sat)),
                    ToDouble(FractionText(light)), ToDouble(FractionText(alpha)))
            == Some(HslColor(Hsl(HslHueOfHundredths(k), Requantised(sat), Requantised(light)), Requantised(alpha)))
  {
    var h := ToDouble(ColorDoubleToString(k));
    ToDoubleOfColorDoubleToString(k);
    HueFractionBack(k);
    assert h == -1.0 || IsFraction(h);
    var hue: HslHue := if h == -1.0 then -1 else HueFromFraction(h);
    assert hue == HslHueOfHundredths(k);
    StoreFractionText(sat);
    StoreFractionText(light);
    StoreFractionText(alpha);
  }

  lemma GlslGroups(c: Color, space: ColorSpace)
    ensures var rgb := RgbOf(c, space);
            GroupsAre(MatchOf(GlslColorToString(c, space), GlslFormat),
                      FractionText(rgb.red), FractionText(rgb.green), FractionText(rgb.blue), AlphaText(c))
    ensures |Split(GlslColorToString(c, space).parts)| == if Translucent(c) then 4 else 3
  {
    var rgb := RgbOf(c, space);
    DoubleTextNoComma(HundredthsFromByte(rgb.red));
    DoubleTextNoComma(HundredthsFromByte(rgb.green));
    DoubleTextNoComma(HundredthsFromByte(rgb.blue));
    DoubleTextNoComma(HundredthsFromByte(c.alpha));
    GroupsOfParts(GlslColorToString(c, space), GlslFormat,
                  FractionText(rgb.red), FractionText(rgb.green), FractionText(rgb.blue), AlphaText(c));
  }

  /** GLSL: the channels come back requantised, and the alpha through the optional fourth component. */
  lemma GlslRoundTrip(c: Color, space: ColorSpace)
    ensures ParseGlslColor(MatchOf(GlslColorToString(c, space), GlslFormat))
            == Some(RgbColor(RequantisedRgb(RgbOf(c, space)), Requantised(c.alpha)))
  {
    GlslGroups(c, space);
    GlslParsesGroups(MatchOf(GlslColorToString(c, space), GlslFormat), RgbOf(c, space), c);
  }

  /** Three fraction groups and the optional fraction, read back by parseGlslColor. */
  lemma GlslParsesGroups(m: Match, rgb: Rgb, c: Color)
    requires GroupsAre(m, FractionText(rgb.red), FractionText(rgb.green), FractionText(rgb.blue), AlphaText(c))
    ensures ParseGlslColor(m) == Some(RgbColor(RequantisedRgb(rgb), Requantised(c.alpha)))
  {
    StoreFractionText(rgb.red);
    StoreFractionText(rgb.green);
    StoreFractionText(rgb.blue);
    var base := RgbColor(RequantisedRgb(rgb), Opaque);
    assert SetRgbF(ToDouble(m.c1), ToDouble(m.c2), ToDouble(m.c3)) == Some(base);
    FloatAlphaBack(base, c);
    assert m.c4 == AlphaText(c);
  }

  /** Six upper-case hexadecimal digits after '#' name the opaque colour they spell. */
  lemma HexDecodesOpaque(r: Byte, g: Byte, b: Byte)
    ensures SetNamedColor("#" + (HexByteUpper(r) + HexByteUpper(g) + HexByteUpper(b)))
            == Some(RgbColor(Rgb(r, g, b), Opaque))
  {
    var x, y, z := HexByteUpper(r), HexByteUpper(g), HexByteUpper(b);
    var text := "#" + (x + y + z);
    assert |text| == 7 && text[0] == '#';
    assert text[1] == x[0] && text[2] == x[1] && text[3] == y[0] && text[4] == y[1];
    assert text[5] == z[0] && text[6] == z[1];
  }

  /** Eight upper-case hexadecimal digits after '#' name the colour with that alpha first. */
  lemma HexDecodesTranslucent(a: Byte, r: Byte, g: Byte, b: Byte)
    ensures SetNamedColor("#" + (HexByteUpper(a) + HexByteUpper(r) + HexByteUpper(g) + HexByteUpper(b)))
            == Some(RgbColor(Rgb(r, g, b), a))
  {
    var w, x, y, z := HexByteUpper(a), HexByteUpper(r), HexByteUpper(g), HexByteUpper(b);
    var text := "#" + (w + x + y + z);
    assert |text| == 9 && text[0] == '#';
    assert text[1] == w[0] && text[2] == w[1] && text[3] == x[0] && text[4] == x[1];
    assert text[5] == y[0] && text[6] == y[1] && text[7] == z[0] && text[8] == z[1];
  }

  /** Hexadecimal: the literal decodes back to exactly the red, green, blue and alpha it was made from. */
  lemma HexRoundTrip(c: Color, space: ColorSpace)
    ensures ParseHexColor(MatchOf(HexColorToString(c, space), HexFormat)) == Some(RgbColor(RgbOf(c, space), c.alpha))
  {
    HexTextSpells(c, space);
  }

  /** The text of a hexadecimal literal names the colour it was made from. */
  lemma HexTextSpells(c: Color, space: ColorSpace)
    ensures SetNamedColor(Render(HexColorToString(c, space), HexFormat)) == Some(RgbColor(RgbOf(c, space), c.alpha))
  {
    var rgb := RgbOf(c, space);
    var lit := HexColorToString(c, space);
    assert Render(lit, HexFormat) == "#" + lit.parts;
    if Translucent(c) {
      HexDecodesTranslucent(c.alpha, rgb.red, rgb.green, rgb.blue);
    } else {
      HexDecodesOpaque(rgb.red, rgb.green, rgb.blue);
    }
  }

  /** On the hundredths grid the RGB-family literals are lossless for an RGB colour. */
  lemma RgbFamilyLosslessOnGrid(c: Color, format: ColorFormat, space: ColorSpace)
    requires c.RgbColor?
    requires format == QCssRgbUCharFormat || format == QCssRgbPercentFormat
             || format == QmlRgbaFormat || format == GlslFormat
    requires OnHundredthsGrid(c.alpha)
    requires format != QCssRgbUCharFormat ==>
               OnHundredthsGrid(c.rgb.red) && OnHundredthsGrid(c.rgb.green) && OnHundredthsGrid(c.rgb.blue)
    ensures ParseColor(format, MatchOf(Serialise(c, format, space), format)) == Some(c)
  {
    match format
    case QCssRgbUCharFormat => RgbUCharLossless(c, space);
    case QCssRgbPercentFormat => RgbPercentLossless(c, space);
    case QmlRgbaFormat => QmlRgbaLossless(c, space);
    case GlslFormat => GlslLossless(c, space);
  }

  /** Integer RGB is lossless for an RGB colour whose alpha lies on the hundredths grid. */
  lemma RgbUCharLossless(c: Color, space: ColorSpace)
    requires c.RgbColor? && OnHundredthsGrid(c.alpha)
    ensures ParseColor(QCssRgbUCharFormat, MatchOf(Serialise(c, QCssRgbUCharFormat, space), QCssRgbUCharFormat)) == Some(c)
  {
    assert RgbOf(c, space) == c.rgb;
    RgbUCharRoundTrip(c, space);
    ParsedSerialised(c, QCssRgbUCharFormat, space, CssRgbUCharToString(c, space), Some(c));
  }

  /** Whether every channel and the alpha of an RGB colour lie on the hundredths grid. */
  predicate RgbOnGrid(c: Color)
    requires c.RgbColor?
  {
    OnHundredthsGrid(c.alpha)
    && OnHundredthsGrid(c.rgb.red) && OnHundredthsGrid(c.rgb.green) && OnHundredthsGrid(c.rgb.blue)
  }

  /** Requantising an RGB colour on the grid changes nothing. */
  lemma RequantisedOnGrid(c: Color, space: ColorSpace)
    requires c.RgbColor? && RgbOnGrid(c)
    ensures RgbColor(RequantisedRgb(RgbOf(c, space)), Requantised(c.alpha)) == c
  {
    assert RgbOf(c, space) == c.rgb;
  }

  /** RGB percentages are lossless on the grid. */
  lemma RgbPercentLossless(c: Color, space: ColorSpace)
    requires c.RgbColor? && RgbOnGrid(c)
    ensures ParseColor(QCssRgbPercentFormat, MatchOf(Serialise(c, QCssRgbPercentFormat, space), QCssRgbPercentFormat)) == Some(c)
  {
    var lit := CssRgbPercentToString(c, space);
    var m := MatchOf(lit, QCssRgbPercentFormat);
    RgbPercentRoundTrip(c, space);
    RequantisedOnGrid(c, space);
    assert ParseCssRgbPercent(m) == Some(c);
    assert ParserFor(QCssRgbPercentFormat, m) == ParseCssRgbPercent(m);
    assert SerialiserFor(c, QCssRgbPercentFormat, space) == lit;
    ParsedSerialised(c, QCssRgbPercentFormat, space, lit, Some(c));
  }

  /** Qt.rgba is lossless on the grid. */
  lemma QmlRgbaLossless(c: Color, space: ColorSpace)
    requires c.RgbColor? && RgbOnGrid(c)
    ensures ParseColor(QmlRgbaFormat, MatchOf(Serialise(c, QmlRgbaFormat, space), QmlRgbaFormat)) == Some(c)
  {
    var lit := QmlRgbaToString(c, space);
    var m := MatchOf(lit, QmlRgbaFormat);
    QmlRgbaRoundTrip(c, space);
    RequantisedOnGrid(c, space);
    assert ParseQmlRgba(m) == Some(c);
    assert ParserFor(QmlRgbaFormat, m) == ParseQmlRgba(m);
    assert SerialiserFor(c, QmlRgbaFormat, space) == lit;
    ParsedSerialised(c, QmlRgbaFormat, space, lit, Some(c));
  }

  /** GLSL vectors are lossless on the grid. */
  lemma GlslLossless(c: Color, space: ColorSpace)
    requires c.RgbColor? && RgbOnGrid(c)
    ensures ParseColor(GlslFormat, MatchOf(Serialise(c, GlslFormat, space), GlslFormat)) == Some(c)
  {
    var lit := GlslColorToString(c, space);
    var m := MatchOf(lit, GlslFormat);
    GlslRoundTrip(c, space);
    RequantisedOnGrid(c, space);
    assert ParseGlslColor(m) == Some(c);
    assert ParserFor(GlslFormat, m) == ParseGlslColor(m);
    assert SerialiserFor(c, GlslFormat, space) == lit;
    ParsedSerialised(c, GlslFormat, space, lit, Some(c));
  }

  /** A format's serialiser, then its parser, is what colorToString and parseColor do together. */
  lemma ParsedSerialised(c: Color, format: ColorFormat, space: ColorSpace, lit: Literal, parsed: Option<Color>)
    requires lit == SerialiserFor(c, format, space)
    requires ParserFor(format, MatchOf(lit, format)) == parsed
    ensures ParseColor(format, MatchOf(Serialise(c, format, space), format)) == parsed
  {
  }

  /** Which literals carry an alpha component, per format. */
  predicate AlphaShown(c: Color, format: ColorFormat) {
    match format
    case QssHsvFormat => HundredthsFromByte(c.alpha) < 100
    case QmlRgbaFormat => true
    case QmlHslaFormat => true
    case _ => Translucent(c)
  }

  /**
   The alpha component is present exactly when the format shows it: below opaque for the
   RGB, HSL and GLSL literals, below 254 for HSV (its percentage rounds below 100), always
   for Qt.rgba and Qt.hsla; a hexadecimal literal has eight digits exactly when translucent.
   */
  lemma AlphaComponentRule(c: Color, format: ColorFormat, space: ColorSpace)
    ensures format != HexFormat ==>
              |Split(Serialise(c, format, space).parts)| == (if AlphaShown(c, format) then 4 else 3)
    ensures format == HexFormat ==> (|Serialise(c, format, space).parts| == 8 <==> Translucent(c))
    ensures AlphaShown(c, QssHsvFormat) <==> c.alpha < 254
  {
    HundredthsOfFull(c.alpha);
    assert AlphaShown(c, QssHsvFormat) <==> c.alpha < 254;
    var lit := Serialise(c, format, space);
    match format
    case QCssRgbUCharFormat => RgbUCharGroups(c, space); assert lit == CssRgbUCharToString(c, space);
    case QCssRgbPercentFormat => RgbPercentGroups(c, space); assert lit == CssRgbPercentToString(c, space);
    case QssHsvFormat => HsvGroups(c, space); assert lit == QssHsvToString(c, space);
    case CssHslFormat => HslGroups(c, space); assert lit == CssHslToString(c, space);
    case QmlRgbaFormat => QmlRgbaGroups(c, space); assert lit == QmlRgbaToString(c, space);
    case QmlHslaFormat => QmlHslaGroups(c, space); assert lit == QmlHslaToString(c, space);
    case GlslFormat => GlslGroups(c, space); assert lit == GlslColorToString(c, space);
    case HexFormat => HexPartsEnd(c, space); assert lit == HexColorToString(c, space);
  }

  /** Opaque orange as hexadecimal: six upper-case digits. */
  lemma HexLiteralExample(space: ColorSpace)
    ensures ColorToString(RgbColor(Rgb(255, 136, 0), Opaque), HexFormat, space) == "#FF8800"
  {
    var c := RgbColor(Rgb(255, 136, 0), Opaque);
    var lit := Serialise(c, HexFormat, space);
    assert HexByteUpper(255) == "FF" && HexByteUpper(136) == "88" && HexByteUpper(0) == "00";
    assert RgbOf(c, space) == Rgb(255, 136, 0);
    assert lit == Literal("#", "FF" + "88" + "00");
    assert ColorToString(c, HexFormat, space) == Render(lit, HexFormat);
    HexLiteralTexts();
  }

  lemma HexLiteralTexts()
    ensures Render(Literal("#", "FF" + "88" + "00"), HexFormat) == "#FF8800"
  {
  }

  /** The texts of the translucent red literal's components. */
  lemma RedTexts()
    ensures NatText(255) == "255" && NatText(0) == "0" && FractionText(128) == "0.50"
  {
    assert NatText(255) == [DigitChar(2), DigitChar(5), DigitChar(5)] == "255";
    assert NatText(0) == [DigitChar(0)] == "0";
    assert HundredthsFromByte(128) == 25855 / 510 == 50;
    ColorDoubleToStringExamples();
  }

  /** Translucent red as integer RGB: the 'a' infix and a two-decimal alpha. */
  lemma RgbaLiteralExample(space: ColorSpace)
    ensures ColorToString(RgbColor(Rgb(255, 0, 0), 128), QCssRgbUCharFormat, space) == "rgba(255, 0, 0, 0.50)"
  {
    var c := RgbColor(Rgb(255, 0, 0), 128);
    var lit := Serialise(c, QCssRgbUCharFormat, space);
    RgbaLiteralParts(space);
    assert lit == Literal("rgba(", "255, 0, 0, 0.50");
    assert ColorToString(c, QCssRgbUCharFormat, space) == Render(lit, QCssRgbUCharFormat);
    RgbaLiteralTexts();
  }

  lemma RgbaLiteralParts(space: ColorSpace)
    ensures CssRgbUCharToString(RgbColor(Rgb(255, 0, 0), 128), space) == Literal("rgba(", "255, 0, 0, 0.50")
  {
    var c := RgbColor(Rgb(255, 0, 0), 128);
    var full, none, half := NatText(255), NatText(0), FractionText(128);
    RedTexts();
    assert RgbOf(c, space) == Rgb(255, 0, 0);
    assert CssRgbUCharToString(c, space) == Literal(Insert("rgb(", 3, 'a'), full + ", " + none + ", " + none + ", " + half);
    RgbaLiteralTexts();
    AlphaPrefixes();
  }

  lemma RgbaLiteralTexts()
    ensures "255" + ", " + "0" + ", " + "0" + ", " + "0.50" == "255, 0, 0, 0.50"
    ensures Render(Literal("rgba(", "255, 0, 0, 0.50"), QCssRgbUCharFormat) == "rgba(255, 0, 0, 0.50)"
  {
  }

  /** Opaque black as GLSL: vec3 with every channel written as "0.0". */
  lemma VecLiteralExample(space: ColorSpace)
    ensures ColorToString(RgbColor(Rgb(0, 0, 0), Opaque), GlslFormat, space) == "vec3(0.0, 0.0, 0.0)"
  {
    var c := RgbColor(Rgb(0, 0, 0), Opaque);
    var lit := Serialise(c, GlslFormat, space);
    VecLiteralParts(space);
    assert lit == Literal("vec3(", "0.0, 0.0, 0.0");
    assert ColorToString(c, GlslFormat, space) == Render(lit, GlslFormat);
    VecLiteralTexts();
  }

  lemma VecLiteralParts(space: ColorSpace)
    ensures GlslColorToString(RgbColor(Rgb(0, 0, 0), Opaque), space) == Literal("vec3(", "0.0, 0.0, 0.0")
  {
    var c := RgbColor(Rgb(0, 0, 0), Opaque);
    var z := FractionText(0);
    assert HundredthsFromByte(0) == 0;
    ColorDoubleToStringOfZero();
    assert RgbOf(c, space) == Rgb(0, 0, 0);
    assert GlslColorToString(c, space) == Literal("vec" + "3" + "(", z + ", " + z + ", " + z);
    VecLiteralTexts();
    AlphaPrefixes();
  }

  lemma VecLiteralTexts()
    ensures "0.0" + ", " + "0.0" + ", " + "0.0" == "0.0, 0.0, 0.0"
    ensures Render(Literal("vec3(", "0.0, 0.0, 0.0"), GlslFormat) == "vec3(0.0, 0.0, 0.0)"
  {
  }
}

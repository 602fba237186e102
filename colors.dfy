/**
 The part of Qt's colour class that the colour engine uses, on 8-bit channels.

 A colour remembers the model it was set in (RGB, HSV or HSL) and an alpha; an
 invalid colour is `None`. Reading a colour in another model goes through a
 `ColorSpace`, a record of the library's conversion functions that the model leaves
 uninterpreted. Fractions written into a colour are turned into a byte by rounding
 f * 255 half up, and a byte is read back as the fraction b / 255.
 */
module Colors {
  import opened Wrappers
  import opened Text

  type Byte = b: int | 0 <= b < 256

  /** An HSV hue in whole degrees; -1 is the library's hue of an achromatic colour. */
  type HsvHue = h: int | -1 <= h < 360

  /** An HSL hue in whole degrees; a fractional hue of 1.0 reads back as 360. */
  type HslHue = h: int | -1 <= h <= 360

  datatype Rgb = Rgb(red: Byte, green: Byte, blue: Byte)
  datatype Hsv = Hsv(hue: HsvHue, saturation: Byte, value: Byte)
  datatype Hsl = Hsl(hue: HslHue, saturation: Byte, lightness: Byte)

  /** The library's conversions between colour models, left as parameters. */
  datatype ColorSpace = ColorSpace(
    hsvToRgb: Hsv -> Rgb,
    hslToRgb: Hsl -> Rgb,
    rgbToHsv: Rgb -> Hsv,
    rgbToHsl: Rgb -> Hsl)

  /** A valid colour: the model it was set in, and its alpha (255 is opaque). */
  datatype Color =
    | RgbColor(rgb: Rgb, alpha: Byte)
    | HsvColor(hsv: Hsv, alpha: Byte)
    | HslColor(hsl: Hsl, alpha: Byte)

  const Opaque: Byte := 255

  /** Qt::red. */
  const Red: Color := RgbColor(Rgb(255, 0, 0), Opaque)

  /** red(), green() and blue(): converted from HSV or HSL when the colour is not RGB. */
  function RgbOf(c: Color, space: ColorSpace): Rgb {
    match c
    case RgbColor(rgb, _) => rgb
    case HsvColor(hsv, _) => space.hsvToRgb(hsv)
    case HslColor(hsl, _) => space.hslToRgb(hsl)
  }

  /** hsvHue(), hsvSaturation() and value(): an HSL colour is converted by way of RGB. */
  function HsvOf(c: Color, space: ColorSpace): Hsv {
    if c.HsvColor? then c.hsv else space.rgbToHsv(RgbOf(c, space))
  }

  /** hslHue(), hslSaturation() and lightness(): an HSV colour is converted by way of RGB. */
  function HslOf(c: Color, space: ColorSpace): Hsl {
    if c.HslColor? then c.hsl else space.rgbToHsl(RgbOf(c, space))
  }

  // ---------------------------------------------------------------- equality

  /** Two whole-degree HSL hues the library stores as the same angle: -1 only matches -1, the rest modulo 360. */
  predicate SameHslHue(h: HslHue, k: HslHue) {
    h == k || (0 <= h && 0 <= k && h % 360 == k % 360)
  }

  /**
   operator== of Qt 5's colour class, on 8-bit channels. Colours set in different models
   differ, and RGB or HSV colours are equal only when identical. Two HSL colours are equal
   when their alphas and lightnesses agree, their hues are the same angle, and their
   saturations agree or either lightness is 0 or full, where saturation is not compared.
   */
  predicate SameColor(a: Color, b: Color) {
    if a.HslColor? && b.HslColor? then
      a.alpha == b.alpha && SameHslHue(a.hsl.hue, b.hsl.hue) && a.hsl.lightness == b.hsl.lightness
      && (a.hsl.saturation == b.hsl.saturation || a.hsl.lightness == 0 || a.hsl.lightness == 255
          || b.hsl.lightness == 0 || b.hsl.lightness == 255)
    else
      a == b
  }

  /** The colour equality is an equivalence; equal colours share the alpha and the model, and outside HSL are identical. */
  lemma SameColorIsEquivalence(a: Color, b: Color, c: Color)
    ensures SameColor(a, a)
    ensures SameColor(a, b) ==> SameColor(b, a)
    ensures SameColor(a, b) && SameColor(b, c) ==> SameColor(a, c)
    ensures SameColor(a, b) ==> a.alpha == b.alpha && (a.HslColor? <==> b.HslColor?)
    ensures SameColor(a, b) && !a.HslColor? ==> a == b
  {
  }

  /**
   Colours the library treats as equal although they differ: a black HSL colour whatever
   its saturation, and the hues 0 and 360.
   */
  lemma SameColorExamples()
    ensures SameColor(HslColor(Hsl(0, 51, 0), Opaque), HslColor(Hsl(0, 25, 0), Opaque))
    ensures SameColor(HslColor(Hsl(360, 10, 20), Opaque), HslColor(Hsl(0, 10, 20), Opaque))
    ensures !SameColor(HslColor(Hsl(0, 51, 20), Opaque), HslColor(Hsl(0, 25, 20), Opaque))
    ensures !SameColor(HslColor(Hsl(-1, 10, 20), Opaque), HslColor(Hsl(0, 10, 20), Opaque))
  {
  }

  // ---------------------------------------------------------------- rounding

  /** qRound(f * 255) for a fraction in [0, 1]. */
  function ByteFromFraction(f: real): (b: Byte)
    requires 0.0 <= f <= 1.0
    ensures b as real - 0.5 <= f * 255.0 < b as real + 0.5
  {
    (f * 255.0 + 0.5).Floor
  }

  /** qRound(100 * b / 255): the hundredths the fraction b / 255 rounds to. */
  function HundredthsFromByte(b: Byte): (h: nat)
    ensures h <= 100
    ensures 255 * h - 127 <= 100 * b <= 255 * h + 127
  {
    (200 * b + 255) / 510
  }

  /** The byte a fraction of h hundredths is stored as. */
  function ByteFromHundredths(h: nat): (b: Byte)
    requires h <= 100
  {
    (255 * h + 50) / 100
  }

  /** HundredthsFromByte is qRound of the exact fraction b / 255 times 100; there is never a tie. */
  lemma HundredthsFromByteRounds(b: Byte)
    ensures (b as real / 255.0 * 100.0 + 0.5).Floor == HundredthsFromByte(b)
  {
    var h := HundredthsFromByte(b);
    var x := b as real / 255.0 * 100.0 + 0.5;
    assert x == (200 * b + 255) as real / 510.0;
    assert 510 * h <= 200 * b + 255 < 510 * h + 510;
  }

  /** ByteFromHundredths is the rounding a fraction of h hundredths gets when stored. */
  lemma ByteFromHundredthsRounds(h: nat)
    requires h <= 100
    ensures ByteFromFraction(h as real / 100.0) == ByteFromHundredths(h)
  {
    var x := h as real / 100.0 * 255.0 + 0.5;
    assert x == (255 * h + 50) as real / 100.0;
    var q := (255 * h + 50) / 100;
    assert 100 * q <= 255 * h + 50 < 100 * q + 100;
    assert q as real <= x < q as real + 1.0;
  }

  /** What a byte becomes when it is printed as hundredths and read back. */
  function Requantised(b: Byte): Byte {
    ByteFromHundredths(HundredthsFromByte(b))
  }

  /** The bytes that survive a trip through hundredths. */
  predicate OnHundredthsGrid(b: Byte) {
    Requantised(b) == b
  }

  /** The bytes that survive a trip through a whole percentage read back with `* 255 / 100`. */
  predicate OnPercentTruncationGrid(b: Byte) {
    HundredthsFromByte(b) * 255 / 100 == b
  }

  /** Storing hundredths and reading them back loses nothing. */
  lemma HundredthsFromByteFromHundredths(h: nat)
    requires h <= 100
    ensures HundredthsFromByte(ByteFromHundredths(h)) == h
  {
    var b := ByteFromHundredths(h);
    assert 100 * b <= 255 * h + 50 < 100 * b + 100;
    var k := HundredthsFromByte(b);
    assert 510 * k <= 200 * b + 255 < 510 * k + 510;
  }

  /** Hence every byte a hundredth maps to is on the grid. */
  lemma ByteFromHundredthsOnGrid(h: nat)
    requires h <= 100
    ensures OnHundredthsGrid(ByteFromHundredths(h))
  {
    HundredthsFromByteFromHundredths(h);
  }

  /** Requantising is idempotent: a byte that has made the trip once is on the grid. */
  lemma RequantisedIdempotent(b: Byte)
    ensures Requantised(Requantised(b)) == Requantised(b)
  {
    ByteFromHundredthsOnGrid(HundredthsFromByte(b));
  }

  /** Only the bytes 254 and 255 print as 1.00, and opaque survives the trip. */
  lemma HundredthsOfFull(b: Byte)
    ensures HundredthsFromByte(b) == 100 <==> 254 <= b
    ensures Requantised(255) == 255
  {
    assert HundredthsFromByte(253) == 50855 / 510 == 99;
    assert HundredthsFromByte(255) == 51255 / 510 == 100;
    assert ByteFromHundredths(100) == 25550 / 100 == 255;
  }

  /** Opaque, transparent and the half-way byte are on the grid; 1 is not. */
  lemma GridExamples()
    ensures OnHundredthsGrid(0) && OnHundredthsGrid(128) && OnHundredthsGrid(255)
    ensures !OnHundredthsGrid(1) && HundredthsFromByte(254) == 100
  {
    assert HundredthsFromByte(128) == 25855 / 510 == 50;
    assert HundredthsFromByte(1) == 455 / 510 == 0;
  }

  /** qRound(h * 36000) / 100: the whole degrees of a fractional HSL hue in [0, 1]. */
  function HueFromFraction(f: real): (h: HslHue)
    requires 0.0 <= f <= 1.0
    ensures h as real * 100.0 - 0.5 <= f * 36000.0 < (h + 1) as real * 100.0 + 0.5
  {
    (f * 36000.0 + 0.5).Floor / 100
  }

  /**
   The whole-degree hues whose turn fraction h/360 lies exactly halfway between two
   hundredths, but whose nearest double lies just below that tie, so that printing the
   double with two decimals rounds down. At the other ties (h = 9 modulo 18) the double
   lies above the tie or on it, and the fixed-notation printer rounds up.
   */
  const TiesPrintedLow: set<int> := {27, 63, 153, 171, 207, 261, 297, 351}

  /**
   The hundredths a whole-degree HSV hue prints as a fraction of a turn: the nearest
   hundredth, a tie rounded up except at the hues of TiesPrintedLow; -1 stays -1.
   */
  function HueHundredths(h: HsvHue): (k: int)
    ensures h == -1 ==> k == -100
    ensures 0 <= h ==> 0 <= k <= 100 && 360 * k - 180 <= 100 * h <= 360 * k + 180
    ensures 0 <= h ==> (100 * h == 360 * k + 180 <==> h in TiesPrintedLow)
  {
    if h == -1 then -100
    else if h in TiesPrintedLow then (200 * h + 360) / 720 - 1
    else (200 * h + 360) / 720
  }

  /** A tie rounded up (9 and 45 degrees), a tie printed low (27 degrees), and no tie (28 degrees). */
  lemma HueHundredthsExamples()
    ensures HueHundredths(9) == 3 && HueHundredths(45) == 13
    ensures HueHundredths(27) == 7 && HueHundredths(28) == 8
  {
  }

  // ---------------------------------------------------------------- setters

  /** setRgb: every channel must be a byte, or the colour becomes invalid. */
  function SetRgb(r: int, g: int, b: int): (c: Option<Color>)
    ensures c.Some? <==> 0 <= r < 256 && 0 <= g < 256 && 0 <= b < 256
    ensures c.Some? ==> c.value == RgbColor(Rgb(r, g, b), Opaque)
  {
    if 0 <= r < 256 && 0 <= g < 256 && 0 <= b < 256 then Some(RgbColor(Rgb(r, g, b), Opaque)) else None
  }

  predicate IsFraction(f: real) {
    0.0 <= f <= 1.0
  }

  /** setRgbF with an alpha: every component must lie in [0, 1], or the colour becomes invalid. */
  function SetRgbaF(r: real, g: real, b: real, a: real): (c: Option<Color>)
    ensures c.Some? <==> IsFraction(r) && IsFraction(g) && IsFraction(b) && IsFraction(a)
    ensures c.Some? ==> c.value.RgbColor?
    ensures c.Some? ==> c.value.rgb.red == ByteFromFraction(r) && c.value.rgb.green == ByteFromFraction(g)
                        && c.value.rgb.blue == ByteFromFraction(b) && c.value.alpha == ByteFromFraction(a)
  {
    if IsFraction(r) && IsFraction(g) && IsFraction(b) && IsFraction(a) then
      Some(RgbColor(Rgb(ByteFromFraction(r), ByteFromFraction(g), ByteFromFraction(b)), ByteFromFraction(a)))
    else
      None
  }

  /** setRgbF with the default alpha of 1.0. */
  function SetRgbF(r: real, g: real, b: real): (c: Option<Color>)
    ensures c.Some? <==> IsFraction(r) && IsFraction(g) && IsFraction(b)
    ensures c.Some? ==> c.value.RgbColor? && c.value.alpha == Opaque
    ensures c.Some? ==> c.value.rgb.red == ByteFromFraction(r) && c.value.rgb.green == ByteFromFraction(g)
                        && c.value.rgb.blue == ByteFromFraction(b)
  {
    SetRgbaF(r, g, b, 1.0)
  }

  /** The whole-degree hue stored for an integer hue: -1 is achromatic, others wrap at 360. */
  function WrapHue(h: int): (w: HsvHue)
    requires -1 <= h
    ensures h == -1 ==> w == -1
    ensures 0 <= h ==> 0 <= w && (w - h) % 360 == 0
    ensures h < 360 ==> w == h
  {
    if h == -1 then -1 else h % 360
  }

  /** setHsv: the hue must be at least -1 and the other components bytes, or the colour is invalid. */
  function SetHsv(h: int, s: int, v: int): (c: Option<Color>)
    ensures c.Some? <==> -1 <= h && 0 <= s < 256 && 0 <= v < 256
    ensures c.Some? ==> c.value.HsvColor? && c.value.alpha == Opaque
                        && c.value.hsv.saturation == s && c.value.hsv.value == v
    ensures c.Some? ==> c.value.hsv.hue == WrapHue(h)
  {
    if -1 <= h && 0 <= s < 256 && 0 <= v < 256 then Some(HsvColor(Hsv(WrapHue(h), s, v), Opaque)) else None
  }

  /** QColor::fromHsv with an alpha: unlike setHsv the hue is not wrapped; it must be -1 or 0 to 359,
      and any argument out of range gives an invalid colour. */
  function FromHsv(h: int, s: int, v: int, a: int): (c: Option<Color>)
    ensures c.Some? <==> (h == -1 || 0 <= h < 360) && 0 <= s < 256 && 0 <= v < 256 && 0 <= a < 256
    ensures c.Some? ==> c.value.HsvColor? && c.value.alpha == a
  {
    if (h == -1 || 0 <= h < 360) && 0 <= s < 256 && 0 <= v < 256 && 0 <= a < 256 then
      Some(HsvColor(Hsv(h, s, v), a))
    else
      None
  }

  /** A colour made by fromHsv reads back exactly the hue, saturation and value it was made from. */
  lemma FromHsvReadsBack(h: int, s: int, v: int, a: int, space: ColorSpace)
    requires (h == -1 || 0 <= h < 360) && 0 <= s < 256 && 0 <= v < 256 && 0 <= a < 256
    ensures var hsv := HsvOf(FromHsv(h, s, v, a).value, space);
            hsv.hue == h && hsv.saturation == s && hsv.value == v
  {
  }

  /** setHsl: the same ranges as setHsv. */
  function SetHsl(h: int, s: int, l: int): (c: Option<Color>)
    ensures c.Some? <==> -1 <= h && 0 <= s < 256 && 0 <= l < 256
    ensures c.Some? ==> c.value.HslColor? && c.value.alpha == Opaque
                        && c.value.hsl.saturation == s && c.value.hsl.lightness == l
    ensures c.Some? ==> c.value.hsl.hue == WrapHue(h)
  {
    if -1 <= h && 0 <= s < 256 && 0 <= l < 256 then Some(HslColor(Hsl(WrapHue(h), s, l), Opaque)) else None
  }

  /** setHslF with an alpha: the hue is -1.0 or a fraction of a turn, the rest fractions. */
  function SetHslF(h: real, s: real, l: real, a: real): (c: Option<Color>)
    ensures c.Some? <==> (h == -1.0 || IsFraction(h)) && IsFraction(s) && IsFraction(l) && IsFraction(a)
    ensures c.Some? ==> c.value.HslColor? && (c.value.hsl.hue == -1 <==> h == -1.0)
    ensures c.Some? && h != -1.0 ==> c.value.hsl.hue == HueFromFraction(h)
    ensures c.Some? ==> c.value.hsl.saturation == ByteFromFraction(s) && c.value.hsl.lightness == ByteFromFraction(l)
                        && c.value.alpha == ByteFromFraction(a)
  {
    if (h == -1.0 || IsFraction(h)) && IsFraction(s) && IsFraction(l) && IsFraction(a) then
      var hue: HslHue := if h == -1.0 then -1 else HueFromFraction(h);
      Some(HslColor(Hsl(hue, ByteFromFraction(s), ByteFromFraction(l)), ByteFromFraction(a)))
    else
      None
  }

  /** The nearest fraction: an out-of-range alpha is clamped, not rejected. */
  function Clamp01(f: real): (r: real)
    ensures IsFraction(r)
    ensures IsFraction(f) ==> r == f
    ensures f < 0.0 ==> r == 0.0
    ensures 1.0 < f ==> r == 1.0
  {
    if f < 0.0 then 0.0 else if 1.0 < f then 1.0 else f
  }

  /** setAlphaF: changes only the alpha, clamping it into [0, 1]; an invalid colour stays invalid. */
  function SetAlphaF(c: Option<Color>, a: real): (r: Option<Color>)
    ensures r.Some? <==> c.Some?
    ensures r.Some? ==> r.value.alpha == ByteFromFraction(Clamp01(a))
    ensures r.Some? ==> r.value.(alpha := c.value.alpha) == c.value
  {
    match c
    case None => None
    case Some(v) => Some(v.(alpha := ByteFromFraction(Clamp01(a))))
  }

  /** '#' and then six or eight hexadecimal digits in either case. */
  predicate IsHexName(name: string) {
    (|name| == 7 || |name| == 9) && name[0] == '#'
    && forall i :: 1 <= i < |name| ==> HexDigitValue(name[i]).Some?
  }

  /**
   setNamedColor, on the two hexadecimal forms "#RRGGBB" and "#AARRGGBB" (digits in
   either case, alpha first); any other text makes the colour invalid.
   */
  function SetNamedColor(name: string): (c: Option<Color>)
    ensures c.Some? <==> IsHexName(name)
    ensures c.Some? ==> c.value.RgbColor?
    ensures c.Some? && |name| == 7 ==>
              c.value.alpha == Opaque && HexPairValue(name[1], name[2]) == Some(c.value.rgb.red)
              && HexPairValue(name[3], name[4]) == Some(c.value.rgb.green)
              && HexPairValue(name[5], name[6]) == Some(c.value.rgb.blue)
    ensures c.Some? && |name| == 9 ==>
              HexPairValue(name[1], name[2]) == Some(c.value.alpha)
              && HexPairValue(name[3], name[4]) == Some(c.value.rgb.red)
              && HexPairValue(name[5], name[6]) == Some(c.value.rgb.green)
              && HexPairValue(name[7], name[8]) == Some(c.value.rgb.blue)
  {
    if |name| == 7 && name[0] == '#' then
      match (HexPairValue(name[1], name[2]), HexPairValue(name[3], name[4]), HexPairValue(name[5], name[6]))
      case (Some(r), Some(g), Some(b)) => Some(RgbColor(Rgb(r, g, b), Opaque))
      case _ => None
    else if |name| == 9 && name[0] == '#' then
      match (HexPairValue(name[1], name[2]), HexPairValue(name[3], name[4]),
             HexPairValue(name[5], name[6]), HexPairValue(name[7], name[8]))
      case (Some(a), Some(r), Some(g), Some(b)) => Some(RgbColor(Rgb(r, g, b), a))
      case _ => None
    else
      None
  }

  /** name(): "#rrggbb" in lower case, without the alpha. */
  function Name(c: Color, space: ColorSpace): (s: string)
    ensures |s| == 7 && s[0] == '#' && IsHexName(s)
  {
    var rgb := RgbOf(c, space);
    var r, g, b := HexByteLower(rgb.red), HexByteLower(rgb.green), HexByteLower(rgb.blue);
    var s := "#" + r + g + b;
    assert s[1] == r[0] && s[2] == r[1] && s[3] == g[0] && s[4] == g[1] && s[5] == b[0] && s[6] == b[1];
    s
  }

  /** Reading back the name gives the colour's red, green and blue, made opaque. */
  lemma SetNamedColorOfName(c: Color, space: ColorSpace)
    ensures SetNamedColor(Name(c, space)) == Some(RgbColor(RgbOf(c, space), Opaque))
  {
    var rgb := RgbOf(c, space);
    var s := Name(c, space);
    var r, g, b := HexByteLower(rgb.red), HexByteLower(rgb.green), HexByteLower(rgb.blue);
    assert s[1] == r[0] && s[2] == r[1] && s[3] == g[0] && s[4] == g[1] && s[5] == b[0] && s[6] == b[1];
  }
}

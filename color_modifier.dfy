/**
 The older colour-type formatter: the literal prefix of each colour type and the text
 of a colour's components in that type, plus the colour modifier's remembered target.

 Integer channels are printed with QString::number. The default-format printing of a
 fraction (alphaF, redF, ...) is a parameter `fraction` applied to the channel byte;
 the model leaves its text uninterpreted.
 */
module ColorModifier {
  import opened Wrappers
  import opened Text
  import opened Colors
  import CU = ColorUtilities

  datatype ColorType =
    | RgbType | RgbaType | HslType | HslaType | HsvType | HsvaType
    | HexType | Vec3Type | Vec4Type | QColorInlineCtorRgbType

  /** colorTypePrefix: the text before the components. The hexadecimal type has none. */
  function ColorTypePrefix(t: ColorType): (p: string)
    requires t != HexType
    ensures 0 < |p| && p[|p| - 1] == '('
  {
    match t
    case RgbType => "rgb("
    case RgbaType => "rgba("
    case HslType => "hsl("
    case HslaType => "hsla("
    case HsvType => "hsv("
    case HsvaType => "hsva("
    case Vec3Type => "vec3("
    case Vec4Type => "vec4("
    case QColorInlineCtorRgbType => "QColor("
  }

  /** The type that adds an alpha component to a type without one. */
  function AlphaVariant(t: ColorType): Option<ColorType> {
    match t
    case RgbType => Some(RgbaType)
    case HslType => Some(HslaType)
    case HsvType => Some(HsvaType)
    case Vec3Type => Some(Vec4Type)
    case _ => None
  }

  /** The CSS-style alpha types are named by inserting 'a' before the '(' of their base type. */
  lemma AlphaPrefixInsertsA(t: ColorType)
    requires t == RgbType || t == HslType || t == HsvType
    ensures var p := ColorTypePrefix(t);
            ColorTypePrefix(AlphaVariant(t).value) == p[..|p| - 1] + "a("
  {
  }

  /** Every type with a prefix has its own: the prefix tells the type. */
  lemma PrefixesDistinct(t: ColorType, u: ColorType)
    requires t != HexType && u != HexType
    ensures ColorTypePrefix(t) == ColorTypePrefix(u) <==> t == u
  {
    var p, q := ColorTypePrefix(t), ColorTypePrefix(u);
    if p == q {
      assert |p| == |q| && p[0] == q[0] && p[|p| - 2] == q[|q| - 2];
    }
  }

  /**
   colorComponents: the channels of the colour in the type, joined by ", ". The
   hexadecimal type is the colour's name. The HSL types print the HSV hue and
   saturation, with the HSL lightness.
   */
  function ColorComponents(c: Color, t: ColorType, space: ColorSpace, fraction: Byte -> string): (s: string)
    ensures t == HexType ==> |s| == 7 && s[0] == '#' && IsHexName(s)
  {
    var rgb, hsv, hsl := RgbOf(c, space), HsvOf(c, space), HslOf(c, space);
    match t
    case RgbType => IntText(rgb.red) + ", " + IntText(rgb.green) + ", " + IntText(rgb.blue)
    case RgbaType =>
      IntText(rgb.red) + ", " + IntText(rgb.green) + ", " + IntText(rgb.blue) + ", " + fraction(c.alpha)
    case HslType => IntText(hsv.hue) + ", " + IntText(hsv.saturation) + ", " + IntText(hsl.lightness)
    case HslaType =>
      IntText(hsv.hue) + ", " + IntText(hsv.saturation) + ", " + IntText(hsl.lightness) + ", " + fraction(c.alpha)
    case HsvType => IntText(hsv.hue) + ", " + IntText(hsv.saturation) + ", " + IntText(hsv.value)
    case HsvaType =>
      IntText(hsv.hue) + ", " + IntText(hsv.saturation) + ", " + IntText(hsv.value) + ", " + fraction(c.alpha)
    case HexType => Name(c, space)
    case Vec3Type => fraction(rgb.red) + ", " + fraction(rgb.green) + ", " + fraction(rgb.blue)
    case Vec4Type =>
      fraction(rgb.red) + ", " + fraction(rgb.green) + ", " + fraction(rgb.blue) + ", " + fraction(c.alpha)
    case QColorInlineCtorRgbType =>
      IntText(rgb.red) + ", " + IntText(rgb.green) + ", " + IntText(rgb.blue)
      + (if c.alpha != 255 then ", " + IntText(c.alpha) else "")
  }

  /** Each alpha type prints its base type's components and then the alpha as a fraction. */
  lemma AlphaComponentsExtend(c: Color, t: ColorType, space: ColorSpace, fraction: Byte -> string)
    requires AlphaVariant(t).Some?
    ensures ColorComponents(c, AlphaVariant(t).value, space, fraction)
            == ColorComponents(c, t, space, fraction) + ", " + fraction(c.alpha)
  {
  }

  /** The hexadecimal components read back as the colour's RGB, made opaque. */
  lemma HexComponentsReadBack(c: Color, space: ColorSpace, fraction: Byte -> string)
    ensures SetNamedColor(ColorComponents(c, HexType, space, fraction)) == Some(RgbColor(RgbOf(c, space), Opaque))
  {
    SetNamedColorOfName(c, space);
  }

  /** Three printed integers, split at ", " and read back, give the integers. */
  lemma ThreeIntegersReadBack(x: int, y: int, z: int)
    requires -1 <= x <= 360 && -1 <= y <= 360 && -1 <= z <= 360
    ensures var fields := Split(IntText(x) + ", " + IntText(y) + ", " + IntText(z));
            |fields| == 3 && ToInt(fields[0]) == x && ToInt(fields[1]) == y && ToInt(fields[2]) == z
  {
    CU.IntTextNoComma(x);
    CU.IntTextNoComma(y);
    CU.IntTextNoComma(z);
    CU.SplitThree(IntText(x), IntText(y), IntText(z));
    ToIntOfIntText(x);
    ToIntOfIntText(y);
    ToIntOfIntText(z);
  }

  /**
   The integer types read back: splitting the components and converting each field
   gives the three channels the type prints.
   */
  lemma IntegerComponentsReadBack(c: Color, t: ColorType, space: ColorSpace, fraction: Byte -> string)
    requires t == RgbType || t == HslType || t == HsvType
    ensures var fields := Split(ColorComponents(c, t, space, fraction));
            var rgb, hsv, hsl := RgbOf(c, space), HsvOf(c, space), HslOf(c, space);
            |fields| == 3
            && (t == RgbType ==> ToInt(fields[0]) == rgb.red && ToInt(fields[1]) == rgb.green
                                 && ToInt(fields[2]) == rgb.blue)
            && (t == HsvType ==> ToInt(fields[0]) == hsv.hue && ToInt(fields[1]) == hsv.saturation
                                 && ToInt(fields[2]) == hsv.value)
            && (t == HslType ==> ToInt(fields[0]) == hsv.hue && ToInt(fields[1]) == hsv.saturation
                                 && ToInt(fields[2]) == hsl.lightness)
  {
    var rgb, hsv, hsl := RgbOf(c, space), HsvOf(c, space), HslOf(c, space);
    if t == RgbType {
      ThreeIntegersReadBack(rgb.red, rgb.green, rgb.blue);
    } else if t == HsvType {
      ThreeIntegersReadBack(hsv.hue, hsv.saturation, hsv.value);
    } else {
      ThreeIntegersReadBack(hsv.hue, hsv.saturation, hsl.lightness);
    }
  }

  /**
   The inline QColor constructor reads back as the RGB channels, with a fourth field,
   the alpha, exactly when the colour is not opaque.
   */
  lemma InlineCtorReadBack(c: Color, space: ColorSpace, fraction: Byte -> string)
    ensures var fields := Split(ColorComponents(c, QColorInlineCtorRgbType, space, fraction));
            var rgb := RgbOf(c, space);
            (|fields| == 4 <==> c.alpha != Opaque) && (|fields| == 3 <==> c.alpha == Opaque)
            && ToInt(fields[0]) == rgb.red && ToInt(fields[1]) == rgb.green && ToInt(fields[2]) == rgb.blue
            && (c.alpha != Opaque ==> ToInt(fields[3]) == c.alpha)
  {
    var rgb := RgbOf(c, space);
    var r, g, b := IntText(rgb.red), IntText(rgb.green), IntText(rgb.blue);
    if c.alpha == Opaque {
      assert ColorComponents(c, QColorInlineCtorRgbType, space, fraction) == r + ", " + g + ", " + b;
      ThreeIntegersReadBack(rgb.red, rgb.green, rgb.blue);
    } else {
      var alpha := IntText(c.alpha);
      assert ColorComponents(c, QColorInlineCtorRgbType, space, fraction) == r + ", " + g + ", " + b + ", " + alpha;
      CU.IntTextNoComma(rgb.red);
      CU.IntTextNoComma(rgb.green);
      CU.IntTextNoComma(rgb.blue);
      CU.IntTextNoComma(c.alpha);
      CU.SplitFour(r, g, b, alpha);
      ToIntOfIntText(rgb.red);
      ToIntOfIntText(rgb.green);
      ToIntOfIntText(rgb.blue);
      ToIntOfIntText(c.alpha);
    }
  }

  /** The inline constructor's components are the RGB type's, with the alpha appended only when translucent. */
  lemma InlineCtorExtendsRgb(c: Color, space: ColorSpace, fraction: Byte -> string)
    ensures var base := ColorComponents(c, RgbType, space, fraction);
            ColorComponents(c, QColorInlineCtorRgbType, space, fraction)
            == if c.alpha == Opaque then base else base + ", " + IntText(c.alpha)
  {
  }

  /** The colour modifier remembers the colour expression it is to rewrite. */
  class ColorModifier<Expr(==)> {
    var currentEdited: Expr

    /** A new modifier holds the default-constructed expression, passed in. */
    constructor(initial: Expr)
      ensures currentEdited == initial
    {
      currentEdited := initial;
    }

    /** setTarget: remember the expression (the assignment is skipped when it is already equal). */
    method SetTarget(colorExpr: Expr)
      modifies this
      ensures currentEdited == colorExpr
    {
      if currentEdited != colorExpr {
        currentEdited := colorExpr;
      }
    }
  }
}

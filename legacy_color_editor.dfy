/**
 The earlier generation of the colour editor widget. Its format enumeration has
 thirteen formats, in which the alpha-carrying forms are formats of their own (the
 "alpha siblings"), its category table lives in the editor, and a click on a family
 button picks the base format or its alpha sibling from the colour's alpha. A change
 of category replaces the available formats but leaves the output format alone.
 */
module LegacyColorEditor {
  import opened Wrappers
  import opened Colors
  import CU = ColorUtilities
  import CE = ColorEditor

  /** The thirteen colour formats of this generation. */
  datatype LegacyFormat =
    | QCssRgbFormat | QCssRgbPercentFormat | QCssRgbaAlphaFloatFormat | QCssRgbaAlphaPercentFormat
    | QssHsvFormat | QssHsvaFormat | CssHslFormat | CssHslaFormat
    | QmlRgbaFormat | QmlHslaFormat | Vec3Format | Vec4Format | HexFormat

  /** The signals the editor emits. */
  datatype LegacySignal =
    | OutputFormatChanged(format: LegacyFormat)
    | ColorChanged(color: Color)
    | HueChanged(hue: int)
    | OpacityChanged(opacity: int)

  /** The formats whose literal carries an alpha component. */
  predicate HasAlpha(f: LegacyFormat) {
    f in {QCssRgbaAlphaFloatFormat, QCssRgbaAlphaPercentFormat, QssHsvaFormat, CssHslaFormat,
          QmlRgbaFormat, QmlHslaFormat, Vec4Format}
  }

  /** The alpha sibling of a base format; a format without a base/sibling pair is its own. */
  function AlphaSibling(f: LegacyFormat): LegacyFormat {
    match f
    case QCssRgbFormat => QCssRgbaAlphaFloatFormat
    case QCssRgbPercentFormat => QCssRgbaAlphaPercentFormat
    case QssHsvFormat => QssHsvaFormat
    case CssHslFormat => CssHslaFormat
    case Vec3Format => Vec4Format
    case _ => f
  }

  // ---------------------------------------------------------------- categories

  /** The formats setColorCategory makes available for a category, in the order it appends them. */
  function CategoryFormats(category: CU.ColorCategory): (fs: seq<LegacyFormat>)
    ensures 0 < |fs|
  {
    match category
    case AnyCategory =>
      [QCssRgbFormat, QCssRgbPercentFormat, QCssRgbaAlphaFloatFormat, QCssRgbaAlphaPercentFormat,
       QssHsvFormat, QssHsvaFormat, CssHslFormat, CssHslaFormat,
       QmlRgbaFormat, QmlHslaFormat, Vec3Format, Vec4Format, HexFormat]
    case QssCategory =>
      [QCssRgbFormat, QCssRgbPercentFormat, QCssRgbaAlphaFloatFormat, QCssRgbaAlphaPercentFormat,
       QssHsvFormat, QssHsvaFormat, HexFormat]
    case CssCategory =>
      [QCssRgbFormat, QCssRgbPercentFormat, QCssRgbaAlphaFloatFormat, QCssRgbaAlphaPercentFormat,
       CssHslFormat, CssHslaFormat, HexFormat]
    case QmlCategory => [QmlRgbaFormat, QmlHslaFormat]
    case GlslCategory => [Vec3Format, Vec4Format]
  }

  /** The Any category holds every format, and exactly the formats of the other four together. */
  lemma AnyIsUnion(f: LegacyFormat)
    ensures f in CategoryFormats(CU.AnyCategory)
    ensures f in CategoryFormats(CU.AnyCategory)
            <==> f in CategoryFormats(CU.QssCategory) || f in CategoryFormats(CU.CssCategory)
                 || f in CategoryFormats(CU.QmlCategory) || f in CategoryFormats(CU.GlslCategory)
  {
    match f
    case QCssRgbFormat => assert CategoryFormats(CU.QssCategory)[0] == f;
    case QCssRgbPercentFormat => assert CategoryFormats(CU.QssCategory)[1] == f;
    case QCssRgbaAlphaFloatFormat => assert CategoryFormats(CU.QssCategory)[2] == f;
    case QCssRgbaAlphaPercentFormat => assert CategoryFormats(CU.QssCategory)[3] == f;
    case QssHsvFormat => assert CategoryFormats(CU.QssCategory)[4] == f;
    case QssHsvaFormat => assert CategoryFormats(CU.QssCategory)[5] == f;
    case CssHslFormat => assert CategoryFormats(CU.CssCategory)[4] == f;
    case CssHslaFormat => assert CategoryFormats(CU.CssCategory)[5] == f;
    case QmlRgbaFormat => assert CategoryFormats(CU.QmlCategory)[0] == f;
    case QmlHslaFormat => assert CategoryFormats(CU.QmlCategory)[1] == f;
    case Vec3Format => assert CategoryFormats(CU.GlslCategory)[0] == f;
    case Vec4Format => assert CategoryFormats(CU.GlslCategory)[1] == f;
    case HexFormat => assert CategoryFormats(CU.QssCategory)[6] == f;
  }

  /**
   Qss and Css share the four RGB formats and hexadecimal; Qss alone has the HSV pair
   and Css alone the HSL pair.
   */
  lemma QssAndCssDiffer(f: LegacyFormat)
    ensures f in CategoryFormats(CU.QssCategory) && f in CategoryFormats(CU.CssCategory)
            <==> f in {QCssRgbFormat, QCssRgbPercentFormat, QCssRgbaAlphaFloatFormat,
                       QCssRgbaAlphaPercentFormat, HexFormat}
    ensures f in CategoryFormats(CU.QssCategory) && f !in CategoryFormats(CU.CssCategory)
            <==> f in {QssHsvFormat, QssHsvaFormat}
    ensures f in CategoryFormats(CU.CssCategory) && f !in CategoryFormats(CU.QssCategory)
            <==> f in {CssHslFormat, CssHslaFormat}
  {
    var qss, css := CategoryFormats(CU.QssCategory), CategoryFormats(CU.CssCategory);
    match f
    case QCssRgbFormat => assert qss[0] == f && css[0] == f;
    case QCssRgbPercentFormat => assert qss[1] == f && css[1] == f;
    case QCssRgbaAlphaFloatFormat => assert qss[2] == f && css[2] == f;
    case QCssRgbaAlphaPercentFormat => assert qss[3] == f && css[3] == f;
    case QssHsvFormat => assert qss[4] == f;
    case QssHsvaFormat => assert qss[5] == f;
    case CssHslFormat => assert css[4] == f;
    case CssHslaFormat => assert css[5] == f;
    case HexFormat => assert qss[6] == f && css[6] == f;
    case _ =>
  }

  /** Each category offers every format's alpha sibling beside it. */
  lemma CategoriesCloseUnderSiblings(category: CU.ColorCategory, f: LegacyFormat)
    requires f in CategoryFormats(category)
    ensures AlphaSibling(f) in CategoryFormats(category)
  {
  }

  // ---------------------------------------------------------------- buttons

  /** colorFormatToButton: a base format and its alpha sibling share a family button. */
  function ColorFormatToButton(format: LegacyFormat): CE.FormatButton {
    match format
    case QCssRgbFormat => CE.RgbButton
    case QCssRgbPercentFormat => CE.RgbButton
    case QCssRgbaAlphaFloatFormat => CE.RgbButton
    case QCssRgbaAlphaPercentFormat => CE.RgbButton
    case QssHsvFormat => CE.HsvButton
    case QssHsvaFormat => CE.HsvButton
    case CssHslFormat => CE.HslButton
    case CssHslaFormat => CE.HslButton
    case QmlRgbaFormat => CE.QmlRgbaButton
    case QmlHslaFormat => CE.QmlHslaButton
    case Vec3Format => CE.VecButton
    case Vec4Format => CE.VecButton
    case HexFormat => CE.HexButton
  }

  /** A format and its alpha sibling go to the same button. */
  lemma SiblingsShareButton(f: LegacyFormat)
    ensures ColorFormatToButton(AlphaSibling(f)) == ColorFormatToButton(f)
    ensures AlphaSibling(f) != f ==> !HasAlpha(f) && HasAlpha(AlphaSibling(f))
  {
  }

  /**
   onFormatButtonChecked's choice, as written: for rgb, hsl and hsv the alpha sibling
   when the colour is translucent; Qt.rgba and Qt.hsla whatever the alpha; and for vec
   Vec3 when translucent and Vec4 when opaque.
   */
  function FormatForButton(button: CE.FormatButton, useAlpha: bool): LegacyFormat {
    match button
    case RgbButton => if useAlpha then QCssRgbaAlphaFloatFormat else QCssRgbFormat
    case HslButton => if useAlpha then CssHslaFormat else CssHslFormat
    case HsvButton => if useAlpha then QssHsvaFormat else QssHsvFormat
    case QmlRgbaButton => QmlRgbaFormat
    case QmlHslaButton => QmlHslaFormat
    case VecButton => if useAlpha then Vec3Format else Vec4Format
    case HexButton => HexFormat
  }

  /** The chosen format always belongs to the clicked button. */
  lemma FormatForButtonMapsBack(button: CE.FormatButton, useAlpha: bool)
    ensures ColorFormatToButton(FormatForButton(button, useAlpha)) == button
  {
    match button
    case RgbButton =>
    case HsvButton =>
    case HslButton =>
    case QmlRgbaButton =>
    case QmlHslaButton =>
    case VecButton =>
    case HexButton =>
  }

  /**
   The alpha rule as written: rgb, hsl and hsv choose a format with alpha exactly when
   the colour is translucent, Qt.rgba and Qt.hsla do not depend on it, and vec does
   the reverse.
   */
  lemma AlphaChoiceAsWritten(button: CE.FormatButton, useAlpha: bool)
    ensures button in {CE.RgbButton, CE.HslButton, CE.HsvButton} ==>
              (HasAlpha(FormatForButton(button, useAlpha)) <==> useAlpha)
              && FormatForButton(button, true) == AlphaSibling(FormatForButton(button, false))
    ensures button in {CE.QmlRgbaButton, CE.QmlHslaButton, CE.HexButton} ==>
              FormatForButton(button, true) == FormatForButton(button, false)
    ensures button == CE.VecButton ==> (HasAlpha(FormatForButton(button, useAlpha)) <==> !useAlpha)
  {
  }

  /** A translucent colour on the vec button gets the vec3 literal, which has no alpha component. */
  lemma VecChoiceDropsAlpha()
    ensures FormatForButton(CE.VecButton, CU.Translucent(RgbColor(Rgb(255, 0, 0), 128))) == Vec3Format
    ensures !HasAlpha(Vec3Format)
  {
  }

  /** The choice evidently intended: the vec button, like the other families, adds alpha only when translucent. */
  function IntendedFormatForButton(button: CE.FormatButton, useAlpha: bool): LegacyFormat {
    match button
    case VecButton => if useAlpha then Vec4Format else Vec3Format
    case _ => FormatForButton(button, useAlpha)
  }

  /**
   With the intended choice, every family that has an alpha sibling picks the format
   with alpha exactly when the colour is translucent, and the format still belongs to
   the button.
   */
  lemma IntendedAlphaChoice(button: CE.FormatButton, useAlpha: bool)
    ensures ColorFormatToButton(IntendedFormatForButton(button, useAlpha)) == button
    ensures button in {CE.RgbButton, CE.HslButton, CE.HsvButton, CE.VecButton} ==>
              (HasAlpha(IntendedFormatForButton(button, useAlpha)) <==> useAlpha)
              && IntendedFormatForButton(button, true) == AlphaSibling(IntendedFormatForButton(button, false))
  {
    FormatForButtonMapsBack(button, useAlpha);
  }

  /** The shown-button rule of updateFormatsLayout: the base format of each family decides. */
  function ShownBy(button: CE.FormatButton): LegacyFormat {
    match button
    case RgbButton => QCssRgbFormat
    case HsvButton => QssHsvFormat
    case HslButton => CssHslFormat
    case QmlRgbaButton => QmlRgbaFormat
    case QmlHslaButton => QmlHslaFormat
    case VecButton => Vec3Format
    case HexButton => HexFormat
  }

  function ShownIn(formats: seq<LegacyFormat>): CE.FormatButton -> bool {
    b => ShownBy(b) in formats
  }

  /**
   updateFormatsLayout as a value: a button is shown exactly when its family's base
   format is available, in layout order.
   */
  function LayoutButtons(formats: seq<LegacyFormat>): (bs: seq<CE.FormatButton>)
    ensures forall b :: b in bs <==> ShownBy(b) in formats
    ensures CE.InLayoutOrder(bs)
  {
    CE.ButtonsWhere(0, ShownIn(formats))
  }

  /** A category shows a family's button exactly when it offers some format of that family. */
  lemma ButtonShownIffFamilyOffered(category: CU.ColorCategory, b: CE.FormatButton)
    ensures b in LayoutButtons(CategoryFormats(category))
            <==> exists f :: f in CategoryFormats(category) && ColorFormatToButton(f) == b
  {
    var fs := CategoryFormats(category);
    var shown := LayoutButtons(fs);
    assert b in shown <==> ShownBy(b) in fs;
    if exists f :: f in fs && ColorFormatToButton(f) == b {
      var f :| f in fs && ColorFormatToButton(f) == b;
      BaseOffered(category, f);
      assert ShownBy(b) in fs;
    }
    if ShownBy(b) in fs {
      ShownByBelongs(b);
    }
  }

  /** The base format that shows a button belongs to that button. */
  lemma ShownByBelongs(b: CE.FormatButton)
    ensures ColorFormatToButton(ShownBy(b)) == b
  {
    match b
    case RgbButton =>
    case HsvButton =>
    case HslButton =>
    case QmlRgbaButton =>
    case QmlHslaButton =>
    case VecButton =>
    case HexButton =>
  }

  /** A category that offers a format offers the base format of its family. */
  lemma BaseOffered(category: CU.ColorCategory, f: LegacyFormat)
    requires f in CategoryFormats(category)
    ensures ShownBy(ColorFormatToButton(f)) in CategoryFormats(category)
  {
    var fs := CategoryFormats(category);
    match category
    case AnyCategory => assert fs[0] == QCssRgbFormat && fs[4] == QssHsvFormat && fs[6] == CssHslFormat && fs[10] == Vec3Format;
    case QssCategory => assert fs[0] == QCssRgbFormat && fs[4] == QssHsvFormat;
    case CssCategory => assert fs[0] == QCssRgbFormat && fs[4] == CssHslFormat;
    case QmlCategory =>
    case GlslCategory => assert fs[0] == Vec3Format;
  }

  // ---------------------------------------------------------------- editor

  class ColorEditor {
    const space: ColorSpace
    var category: CU.ColorCategory
    var availableFormats: seq<LegacyFormat>
    var layout: seq<CE.FormatButton>
    var checked: CE.FormatButton
    var outputFormat: LegacyFormat
    var color: Color
    var hueSlider: CE.HueSliderValue
    var opacitySlider: Byte
    var signals: seq<LegacySignal>

    /** The buttons agree with the category, and the checked one with the output format. */
    predicate FormatsShown()
      reads this
    {
      availableFormats == CategoryFormats(category)
      && layout == LayoutButtons(availableFormats)
      && checked == ColorFormatToButton(outputFormat)
    }

    /** The hue and opacity sliders show the colour. */
    predicate SlidersShowColor()
      reads this
    {
      hueSlider == CE.SliderHue(HsvOf(color, space).hue) && opacitySlider == color.alpha
    }

    predicate Valid()
      reads this
    {
      FormatsShown() && SlidersShowColor()
    }

    /**
     The constructor checks the rgb button, starts from the Css category so that the
     switch to Any takes effect, and sets the colour to red; the output format keeps
     its default, the integer RGB one.
     */
    constructor(space: ColorSpace)
      ensures Valid()
      ensures this.space == space
      ensures category == CU.AnyCategory
      ensures outputFormat == QCssRgbFormat && checked == CE.RgbButton
      ensures color == Red && opacitySlider == Opaque
      ensures signals == [ColorChanged(Red)]
    {
      this.space := space;
      category := CU.CssCategory;
      availableFormats := [];
      layout := [];
      checked := CE.RgbButton;
      outputFormat := QCssRgbFormat;
      color := HsvColor(Hsv(0, 0, 0), Opaque);
      hueSlider := 0;
      opacitySlider := Opaque;
      signals := [];
      new;
      SetColorCategory(CU.AnyCategory);
      SetColor(Red);
    }

    /** updateFormatsLayout. */
    method UpdateFormatsLayout()
      modifies this`layout
      ensures layout == LayoutButtons(availableFormats)
    {
      var shown: seq<CE.FormatButton> := [];
      var i := 7;
      while i > 0
        invariant 0 <= i <= 7
        invariant shown == CE.ButtonsWhere(i, ShownIn(availableFormats))
        decreases i
      {
        i := i - 1;
        var b := CE.ButtonAt(i);
        if ShownIn(availableFormats)(b) {
          shown := [b] + shown;
        }
      }
      layout := shown;
    }

    /** setCurrentFormat: store and announce. */
    method SetCurrentFormat(format: LegacyFormat)
      modifies this`outputFormat, this`signals
      ensures outputFormat == format && signals == old(signals) + [OutputFormatChanged(format)]
    {
      outputFormat := format;
      signals := signals + [OutputFormatChanged(format)];
    }

    /** setCurrentColor: store and announce. */
    method SetCurrentColor(c: Color)
      modifies this`color, this`signals
      ensures color == c && signals == old(signals) + [ColorChanged(c)]
    {
      color := c;
      signals := signals + [ColorChanged(c)];
    }

    /**
     setColorCategory: a change of category replaces the available formats with the
     category's list and relays the buttons out; the output format and the
     checked button stay, so the output format may now be one the category lacks.
     */
    method SetColorCategory(newCategory: CU.ColorCategory)
      modifies this`category, this`availableFormats, this`layout
      ensures category == newCategory
      ensures old(category) == newCategory ==>
                availableFormats == old(availableFormats) && layout == old(layout)
      ensures old(category) != newCategory ==>
                availableFormats == CategoryFormats(newCategory) && layout == LayoutButtons(availableFormats)
      ensures old(FormatsShown()) ==> FormatsShown()
    {
      if category != newCategory {
        category := newCategory;
        availableFormats := CategoryFormats(newCategory);
        UpdateFormatsLayout();
      }
    }

    /** setOutputFormat: a different format checks its button and is announced; the same one changes nothing. */
    method SetOutputFormat(format: LegacyFormat)
      modifies this`checked, this`outputFormat, this`signals
      ensures outputFormat == format
      ensures old(outputFormat) == format ==> checked == old(checked) && signals == old(signals)
      ensures old(outputFormat) != format ==>
                checked == ColorFormatToButton(format) && signals == old(signals) + [OutputFormatChanged(format)]
      ensures old(FormatsShown()) ==> FormatsShown()
    {
      if outputFormat != format {
        checked := ColorFormatToButton(format);
        SetCurrentFormat(format);
      }
    }

    /**
     onFormatButtonChecked: the clicked family's format, chosen from the colour's alpha
     as written, becomes the output format and is announced, changed or not.
     */
    method OnFormatButtonChecked(button: CE.FormatButton)
      modifies this`checked, this`outputFormat, this`signals
      ensures checked == button && outputFormat == FormatForButton(button, CU.Translucent(color))
      ensures ColorFormatToButton(outputFormat) == button
      ensures signals == old(signals) + [OutputFormatChanged(outputFormat)]
      ensures old(FormatsShown()) ==> FormatsShown()
    {
      checked := button;
      var useAlpha := color.alpha < Opaque;
      FormatForButtonMapsBack(button, useAlpha);
      SetCurrentFormat(FormatForButton(button, useAlpha));
    }

    /**
     onFormatButtonChecked as evidently intended: every family with an alpha sibling,
     vec included, picks the format with alpha exactly when the colour is translucent.
     */
    method OnFormatButtonCheckedIntended(button: CE.FormatButton)
      modifies this`checked, this`outputFormat, this`signals
      ensures checked == button && outputFormat == IntendedFormatForButton(button, CU.Translucent(color))
      ensures ColorFormatToButton(outputFormat) == button
      ensures button in {CE.RgbButton, CE.HslButton, CE.HsvButton, CE.VecButton} ==>
                (HasAlpha(outputFormat) <==> CU.Translucent(color))
      ensures signals == old(signals) + [OutputFormatChanged(outputFormat)]
      ensures old(FormatsShown()) ==> FormatsShown()
    {
      checked := button;
      var useAlpha := color.alpha < Opaque;
      IntendedAlphaChoice(button, useAlpha);
      SetCurrentFormat(IntendedFormatForButton(button, useAlpha));
    }

    /**
     setColor: a colour that differs under the colour class's equality moves the hue and
     opacity sliders to it and is announced; an equal one changes nothing.
     */
    method SetColor(c: Color)
      modifies this`color, this`hueSlider, this`opacitySlider, this`signals
      ensures SameColor(color, c)
      ensures outputFormat == old(outputFormat) && checked == old(checked)
      ensures category == old(category) && availableFormats == old(availableFormats) && layout == old(layout)
      ensures SameColor(old(color), c) ==>
                color == old(color) && hueSlider == old(hueSlider) && opacitySlider == old(opacitySlider)
                && signals == old(signals)
      ensures !SameColor(old(color), c) ==>
                color == c && SlidersShowColor() && signals == old(signals) + [ColorChanged(c)]
      ensures old(SlidersShowColor()) ==> SlidersShowColor()
      ensures old(FormatsShown()) ==> FormatsShown()
    {
      SameColorIsEquivalence(c, c, c);
      if !SameColor(color, c) {
        hueSlider := CE.SliderHue(HsvOf(c, space).hue);
        opacitySlider := c.alpha;
        SetCurrentColor(c);
      }
    }

    /**
     The colour picker's change: the picked colour, with the opacity slider's alpha, becomes the editor's
     colour and is announced; the sliders stay where they are.
     */
    method OnPickerColorChanged(picked: Color)
      modifies this`color, this`signals
      ensures color == picked.(alpha := opacitySlider) && color.alpha == opacitySlider
      ensures signals == old(signals) + [ColorChanged(color)]
    {
      SetCurrentColor(picked.(alpha := opacitySlider));
    }

    /** The hue slider's change: the slider holds the new hue, and the colour takes it, keeping saturation, value and the slider's opacity. */
    method OnHueChanged(hue: CE.HueSliderValue)
      modifies this`hueSlider, this`color, this`signals
      ensures hueSlider == hue
      ensures var hsv := HsvOf(old(color), space);
              color == HsvColor(Hsv(hue, hsv.saturation, hsv.value), opacitySlider)
      ensures signals == old(signals) + [ColorChanged(color)]
      ensures SlidersShowColor()
    {
      hueSlider := hue;
      var hsv := HsvOf(color, space);
      var next := FromHsv(hue, hsv.saturation, hsv.value, opacitySlider);
      SetCurrentColor(next.value);
    }

    /** The opacity slider's change: the slider holds the new opacity, and the colour takes it and the hue slider's hue. */
    method OnOpacityChanged(opacity: Byte)
      modifies this`opacitySlider, this`color, this`signals
      ensures opacitySlider == opacity
      ensures var hsv := HsvOf(old(color), space);
              color == HsvColor(Hsv(hueSlider, hsv.saturation, hsv.value), opacity)
      ensures signals == old(signals) + [ColorChanged(color)]
      ensures SlidersShowColor()
    {
      opacitySlider := opacity;
      var hsv := HsvOf(color, space);
      var next := FromHsv(hueSlider, hsv.saturation, hsv.value, opacity);
      SetCurrentColor(next.value);
    }

    /** setHue, for a hue of 0 to 359: a different hue recolours the editor, then is announced. */
    method SetHue(hue: int)
      requires 0 <= hue <= 359
      modifies this`hueSlider, this`color, this`signals
      ensures hueSlider == hue
      ensures old(hueSlider) == hue ==> color == old(color) && signals == old(signals)
      ensures old(hueSlider) != hue ==>
                var hsv := HsvOf(old(color), space);
                color == HsvColor(Hsv(hue, hsv.saturation, hsv.value), opacitySlider)
                && signals == old(signals) + [ColorChanged(color), HueChanged(hue)]
      ensures old(SlidersShowColor()) ==> SlidersShowColor()
    {
      if hueSlider != hue {
        hueSlider := hue;
        OnHueChanged(hue);
        signals := signals + [HueChanged(hue)];
      }
    }

    /** setOpacity, for an opacity of 0 to 255: a different opacity recolours the editor, then is announced. */
    method SetOpacity(opacity: int)
      requires 0 <= opacity <= 255
      modifies this`opacitySlider, this`color, this`signals
      ensures opacitySlider == opacity
      ensures old(opacitySlider) == opacity ==> color == old(color) && signals == old(signals)
      ensures old(opacitySlider) != opacity ==>
                var hsv := HsvOf(old(color), space);
                color == HsvColor(Hsv(hueSlider, hsv.saturation, hsv.value), opacity)
                && signals == old(signals) + [ColorChanged(color), OpacityChanged(opacity)]
      ensures old(SlidersShowColor()) ==> SlidersShowColor()
    {
      if opacitySlider != opacity {
        opacitySlider := opacity;
        OnOpacityChanged(opacity);
        signals := signals + [OpacityChanged(opacity)];
      }
    }
  }
}

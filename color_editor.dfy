/**
 The colour editor widget of the plugin: the selection state behind it (the category,
 the formats it allows, the output format and the colour), the family buttons that
 choose a format, and the hue and opacity sliders that follow the colour.

 Widgets are reduced to what the state depends on: the button that is checked, the
 buttons laid out (the visible ones, in layout order) and the two slider positions the
 editor reads back. Signals are recorded, in emission order, in `signals`.
 */
module ColorEditor {
  import opened Wrappers
  import opened Colors
  import opened ColorUtilities

  /** The seven family buttons, in the order the layout adds them. */
  datatype FormatButton = RgbButton | HsvButton | HslButton | QmlRgbaButton | QmlHslaButton | VecButton | HexButton

  /** The signals the editor emits. */
  datatype EditorSignal =
    | OutputFormatChanged(format: ColorFormat)
    | ColorChanged(color: Color)
    | HueChanged(hue: int)
    | OpacityChanged(opacity: int)
    | ColorSelected(selected: Color, selectedFormat: ColorFormat)

  /** The position of a hue slider that runs from 0 to 359 degrees. */
  type HueSliderValue = h: int | 0 <= h < 360

  /** Qt::Key_Return and Qt::Key_Enter. */
  const KeyReturn: int := 0x0100_0004
  const KeyEnter: int := 0x0100_0005

  // ---------------------------------------------------------------- buttons

  /** colorFormatToButton: both RGB formats share the rgb button; every format has a button. */
  function ColorFormatToButton(format: ColorFormat): FormatButton {
    match format
    case QCssRgbUCharFormat => RgbButton
    case QCssRgbPercentFormat => RgbButton
    case QssHsvFormat => HsvButton
    case CssHslFormat => HslButton
    case QmlRgbaFormat => QmlRgbaButton
    case QmlHslaFormat => QmlHslaButton
    case GlslFormat => VecButton
    case HexFormat => HexButton
  }

  /** The buttonToColorFormat table the constructor fills: the format a click selects. */
  function ButtonFormat(button: FormatButton): ColorFormat {
    match button
    case RgbButton => QCssRgbUCharFormat
    case HsvButton => QssHsvFormat
    case HslButton => CssHslFormat
    case QmlRgbaButton => QmlRgbaFormat
    case QmlHslaButton => QmlHslaFormat
    case VecButton => GlslFormat
    case HexButton => HexFormat
  }

  /** The format a button selects is one that button stands for. */
  lemma ButtonFormatMapsBack(button: FormatButton)
    ensures ColorFormatToButton(ButtonFormat(button)) == button
  {
    match button
    case RgbButton =>
    case HsvButton =>
    case HslButton =>
    case QmlRgbaButton =>
    case QmlHslaButton =>
    case VecButton =>
    case HexButton =>
  }

  /** Two formats share a button exactly when they are equal or are the two RGB formats. */
  lemma SharedButtons(f: ColorFormat, g: ColorFormat)
    ensures ColorFormatToButton(f) == ColorFormatToButton(g)
            <==> f == g || ({f, g} == {QCssRgbUCharFormat, QCssRgbPercentFormat})
  {
    if f != g && ColorFormatToButton(f) == ColorFormatToButton(g) {
      assert ColorFormatToButton(f) == RgbButton;
    }
    if {f, g} == {QCssRgbUCharFormat, QCssRgbPercentFormat} {
      assert f in {QCssRgbUCharFormat, QCssRgbPercentFormat};
      assert g in {QCssRgbUCharFormat, QCssRgbPercentFormat};
    }
  }

  /** A format reaches its button by way of the button's own format. */
  lemma ButtonOfFormatSelects(format: ColorFormat)
    ensures ColorFormatToButton(ButtonFormat(ColorFormatToButton(format))) == ColorFormatToButton(format)
    ensures ButtonFormat(ColorFormatToButton(format)) == format <==> format != QCssRgbPercentFormat
  {
    ButtonFormatMapsBack(ColorFormatToButton(format));
  }

  /** Where a button sits in the layout order. */
  function ButtonIndex(button: FormatButton): nat {
    match button
    case RgbButton => 0
    case HsvButton => 1
    case HslButton => 2
    case QmlRgbaButton => 3
    case QmlHslaButton => 4
    case VecButton => 5
    case HexButton => 6
  }

  /** The buttons appear in layout order, each at most once. */
  predicate InLayoutOrder(bs: seq<FormatButton>) {
    forall i, j :: 0 <= i < j < |bs| ==> ButtonIndex(bs[i]) < ButtonIndex(bs[j])
  }

  /** The buttons from layout position `first` on that `shown` picks, in layout order. */
  function ButtonsWhere(first: nat, shown: FormatButton -> bool): (bs: seq<FormatButton>)
    requires first <= 7
    ensures forall b :: b in bs <==> first <= ButtonIndex(b) && shown(b)
    ensures InLayoutOrder(bs)
    decreases 7 - first
  {
    if first == 7 then
      []
    else
      var b := ButtonAt(first);
      var rest := ButtonsWhere(first + 1, shown);
      assert forall c :: ButtonIndex(c) == first ==> c == b;
      if shown(b) then [b] + rest else rest
  }

  /** A button is shown when the format it selects is among `formats`. */
  function ShownIn(formats: seq<ColorFormat>): FormatButton -> bool {
    b => ButtonFormat(b) in formats
  }

  /** The seven buttons in layout order. */
  const AllButtons: seq<FormatButton> :=
    [RgbButton, HsvButton, HslButton, QmlRgbaButton, QmlHslaButton, VecButton, HexButton]

  /** The button at a layout position. */
  function ButtonAt(i: nat): (b: FormatButton)
    requires i < 7
    ensures ButtonIndex(b) == i
  {
    AllButtons[i]
  }

  /**
   updateFormatsLayout as a value: a button is shown exactly when the format it selects is
   available, and the shown buttons keep the layout order.
   */
  function FormatButtons(formats: seq<ColorFormat>): (bs: seq<FormatButton>)
    ensures forall b :: b in bs <==> ButtonFormat(b) in formats
    ensures InLayoutOrder(bs)
  {
    ButtonsWhere(0, ShownIn(formats))
  }

  /** The rgb button stands for the integer RGB format: the percentage format alone does not show it. */
  lemma PercentAloneHidesRgb()
    ensures FormatButtons([QCssRgbPercentFormat, HexFormat]) == [HexButton]
  {
    var fs := [QCssRgbPercentFormat, HexFormat];
    var bs := FormatButtons(fs);
    assert ButtonFormat(HexButton) in fs;
    forall b | b in bs ensures b == HexButton {
      OnlyHexSelectsFrom(b, fs);
    }
    OnlyButton(bs, HexButton);
  }

  /** Of the RGB-percentage and hex formats, only the hex one is selected by a button. */
  lemma OnlyHexSelectsFrom(b: FormatButton, fs: seq<ColorFormat>)
    requires fs == [QCssRgbPercentFormat, HexFormat]
    requires ButtonFormat(b) in fs
    ensures b == HexButton
  {
    assert ButtonFormat(b) == QCssRgbPercentFormat || ButtonFormat(b) == HexFormat;
  }

  /** A layout-ordered list that holds one button and nothing else is that button alone. */
  lemma OnlyButton(bs: seq<FormatButton>, b: FormatButton)
    requires InLayoutOrder(bs) && b in bs
    requires forall x :: x in bs ==> x == b
    ensures bs == [b]
  {
    if 1 < |bs| {
      FirstTwoInOrder(bs);
      assert false;
    }
  }

  /** The first two buttons of a layout-ordered list are distinct members of it. */
  lemma FirstTwoInOrder(bs: seq<FormatButton>)
    requires InLayoutOrder(bs) && 1 < |bs|
    ensures bs[0] in bs && bs[1] in bs && bs[0] != bs[1]
  {
    assert ButtonIndex(bs[0]) < ButtonIndex(bs[1]);
  }

  /** When every button's format is available, the buttons from `first` on are all shown, in order. */
  lemma {:induction false} ButtonsWhereAll(first: nat, shown: FormatButton -> bool)
    requires first <= 7
    requires forall b: FormatButton :: shown(b)
    ensures ButtonsWhere(first, shown) == AllButtons[first..]
    decreases 7 - first
  {
    if first < 7 {
      ButtonsWhereAll(first + 1, shown);
      assert AllButtons[first..] == [AllButtons[first]] + AllButtons[first + 1..];
    }
  }

  /** The Any category shows all seven buttons, in layout order. */
  lemma AnyShowsEveryButton()
    ensures FormatButtons(FormatsFromCategory(AnyCategory)) == AllButtons
  {
    var fs := FormatsFromCategory(AnyCategory);
    forall b: FormatButton ensures ShownIn(fs)(b) {
      AnyIsUnionOfCategories(ButtonFormat(b));
    }
    ButtonsWhereAll(0, ShownIn(fs));
    assert AllButtons[0..] == AllButtons;
  }

  /** The hue slider position for a colour: an achromatic hue (-1) sits at the start of the slider. */
  function SliderHue(h: HsvHue): (p: HueSliderValue)
    ensures 0 <= h ==> p == h
  {
    if h < 0 then 0 else h
  }

  // ---------------------------------------------------------------- editor

  /** The output format setColorCategory leaves: a new category's first format, or the format it had. */
  function CategoryFormat(current: ColorCategory, format: ColorFormat, newCategory: ColorCategory): ColorFormat {
    if current == newCategory then format else FormatsFromCategory(newCategory)[0]
  }

  /** The Any category starts with the integer RGB format, whose button is the rgb one. */
  lemma AnyStartsWithIntegerRgb()
    ensures FormatsFromCategory(AnyCategory)[0] == QCssRgbUCharFormat
    ensures ColorFormatToButton(QCssRgbUCharFormat) == RgbButton
  {
  }

  class ColorEditor {
    const space: ColorSpace
    var category: ColorCategory
    var availableFormats: seq<ColorFormat>
    /** The buttons in the formats layout, which are the visible ones. */
    var layout: seq<FormatButton>
    /** The checked button of the exclusive group, if any. */
    var checked: Option<FormatButton>
    var outputFormat: ColorFormat
    var color: Color
    var hueSlider: HueSliderValue
    var opacitySlider: Byte
    var signals: seq<EditorSignal>

    /** The format buttons agree with the category and the output format. */
    predicate FormatsShown()
      reads this`availableFormats, this`category, this`layout, this`checked, this`outputFormat
    {
      availableFormats == FormatsFromCategory(category)
      && layout == FormatButtons(availableFormats)
      && checked == Some(ColorFormatToButton(outputFormat))
    }

    /** The hue and opacity sliders show the colour. */
    predicate SlidersShowColor()
      reads this`hueSlider, this`opacitySlider, this`color
    {
      hueSlider == SliderHue(HsvOf(color, space).hue) && opacitySlider == color.alpha
    }

    predicate Valid()
      reads this`availableFormats, this`category, this`layout, this`checked, this`outputFormat
      reads this`hueSlider, this`opacitySlider, this`color
    {
      FormatsShown() && SlidersShowColor()
    }

    /**
     The constructor starts from the Css category so that switching to Any is not a
     no-op; the output format that switch selects is already the integer RGB one, so
     construction announces only the colour.
     */
    constructor(space: ColorSpace)
      ensures Valid()
      ensures this.space == space
      ensures category == AnyCategory
      ensures outputFormat == QCssRgbUCharFormat && checked == Some(RgbButton)
      ensures color == Red && opacitySlider == Opaque
      ensures signals == [ColorChanged(Red)]
    {
      this.space := space;
      category := CssCategory;
      availableFormats := [];
      layout := [];
      checked := None;
      outputFormat := QCssRgbUCharFormat;
      color := HsvColor(Hsv(0, 0, 0), Opaque);
      hueSlider := 0;
      opacitySlider := Opaque;
      signals := [];
      new;
      SetColorCategory(AnyCategory);
      AnyStartsWithIntegerRgb();
      SetOutputFormat(QCssRgbUCharFormat);
      SetColor(Red);
    }

    /**
     updateFormatsLayout: the visible buttons are the ones whose format is available, in
     order. The loop over the seven buttons stands for the seven `if` blocks of the
     source, one per button, each adding its button when its format is available.
     */
    method UpdateFormatsLayout()
      modifies this`layout
      ensures layout == FormatButtons(availableFormats)
    {
      var shown: seq<FormatButton> := [];
      var i := 7;
      while i > 0
        invariant 0 <= i <= 7
        invariant shown == ButtonsWhere(i, ShownIn(availableFormats))
        decreases i
      {
        i := i - 1;
        var b := ButtonAt(i);
        if ShownIn(availableFormats)(b) {
          shown := [b] + shown;
        }
      }
      layout := shown;
    }

    /** replaceAvailableFormats. */
    method ReplaceAvailableFormats(formats: seq<ColorFormat>)
      modifies this`availableFormats, this`layout
      ensures availableFormats == formats && layout == FormatButtons(formats)
    {
      availableFormats := formats;
      UpdateFormatsLayout();
    }

    /** setCurrentFormat: store and announce. */
    method SetCurrentFormat(format: ColorFormat)
      modifies this`outputFormat, this`signals
      ensures outputFormat == format && signals == old(signals) + [OutputFormatChanged(format)]
    {
      outputFormat := format;
      signals := signals + [OutputFormatChanged(format)];
    }

    /** setCurrentColor: store and announce. */
    method SetCurrentColor(c: Color)
      modifies this`color, this`signals
      ensures color == c && signals == old(signals) + [ColorChanged(c)]
    {
      color := c;
      signals := signals + [ColorChanged(c)];
    }

    /**
     setColorCategory: a change of category replaces the available formats and selects
     the first of them, checking its button, without announcing the format; the same
     category changes nothing.
     */
    method SetColorCategory(newCategory: ColorCategory)
      modifies this`category, this`availableFormats, this`layout, this`checked, this`outputFormat
      ensures old(category) == newCategory ==>
                availableFormats == old(availableFormats) && layout == old(layout)
                && checked == old(checked) && outputFormat == old(outputFormat)
      ensures category == newCategory
      ensures old(category) != newCategory ==>
                FormatsShown() && outputFormat == FormatsFromCategory(newCategory)[0]
      ensures color == old(color) && signals == old(signals)
      ensures old(Valid()) ==> Valid()
    {
      ghost var sliders := SlidersShowColor();
      if category != newCategory {
        category := newCategory;
        var formats := FormatsFromCategory(newCategory);
        ReplaceAvailableFormats(formats);
        var first := formats[0];
        checked := Some(ColorFormatToButton(first));
        outputFormat := first;
        assert FormatsShown();
      }
      assert SlidersShowColor() == sliders;
    }

    /**
     setOutputFormat: a different format checks its button (with the group's click
     signal blocked) and is announced; the same format changes nothing.
     */
    method SetOutputFormat(format: ColorFormat)
      modifies this`checked, this`outputFormat, this`signals
      ensures outputFormat == format
      ensures old(outputFormat) == format ==> checked == old(checked) && signals == old(signals)
      ensures old(outputFormat) != format ==>
                checked == Some(ColorFormatToButton(format))
                && signals == old(signals) + [OutputFormatChanged(format)]
      ensures old(FormatsShown()) ==> FormatsShown()
      ensures color == old(color)
    {
      if outputFormat != format {
        checked := Some(ColorFormatToButton(format));
        SetCurrentFormat(format);
      }
    }

    /** A click on a family button selects the button's format and announces it, changed or not. */
    method OnButtonClicked(button: FormatButton)
      modifies this`checked, this`outputFormat, this`signals
      ensures checked == Some(button) && outputFormat == ButtonFormat(button)
      ensures signals == old(signals) + [OutputFormatChanged(ButtonFormat(button))]
      ensures old(FormatsShown()) ==> FormatsShown()
    {
      checked := Some(button);
      ButtonFormatMapsBack(button);
      SetCurrentFormat(ButtonFormat(button));
    }

    /**
     setColor: a colour that differs under the colour class's equality moves the hue and
     opacity sliders to it and is announced; an equal one, even if it is not identical,
     changes nothing and the editor keeps its own colour.
     */
    method SetColor(c: Color)
      modifies this`color, this`hueSlider, this`opacitySlider, this`signals
      ensures SameColor(color, c)
      ensures outputFormat == old(outputFormat) && checked == old(checked)
      ensures category == old(category) && availableFormats == old(availableFormats) && layout == old(layout)
      ensures SameColor(old(color), c) ==>
                color == old(color) && hueSlider == old(hueSlider) && opacitySlider == old(opacitySlider)
                && signals == old(signals)
      ensures !SameColor(old(color), c) ==>
                color == c && SlidersShowColor() && signals == old(signals) + [ColorChanged(c)]
      ensures old(SlidersShowColor()) ==> SlidersShowColor()
      ensures old(FormatsShown()) ==> FormatsShown()
    {
      SameColorIsEquivalence(c, c, c);
      if !SameColor(color, c) {
        hueSlider := SliderHue(HsvOf(c, space).hue);
        opacitySlider := c.alpha;
        SetCurrentColor(c);
      }
    }

    /**
     onPickerColorChanged: the picked colour, with the opacity slider's alpha, becomes the editor's
     colour and is announced; the sliders stay where they are.
     */
    method OnPickerColorChanged(picked: Color)
      modifies this`color, this`signals
      ensures color == picked.(alpha := opacitySlider) && color.alpha == opacitySlider
      ensures signals == old(signals) + [ColorChanged(color)]
    {
      SetCurrentColor(picked.(alpha := opacitySlider));
    }

    /** onHueChanged: the slider holds the new hue, and the colour takes it, keeping saturation, value and the slider's opacity. */
    method OnHueChanged(hue: HueSliderValue)
      modifies this`hueSlider, this`color, this`signals
      ensures hueSlider == hue
      ensures var hsv := HsvOf(old(color), space);
              color == HsvColor(Hsv(hue, hsv.saturation, hsv.value), opacitySlider)
      ensures signals == old(signals) + [ColorChanged(color)]
      ensures SlidersShowColor()
    {
      hueSlider := hue;
      var hsv := HsvOf(color, space);
      var next := FromHsv(hue, hsv.saturation, hsv.value, opacitySlider);
      SetCurrentColor(next.value);
    }

    /** onSaturationChanged: the colour takes the new saturation, keeping its own hue and value. */
    method OnSaturationChanged(saturation: Byte)
      modifies this`color, this`signals
      ensures var hsv := HsvOf(old(color), space);
              color == HsvColor(Hsv(hsv.hue, saturation, hsv.value), opacitySlider)
      ensures signals == old(signals) + [ColorChanged(color)]
      ensures old(SlidersShowColor()) ==> SlidersShowColor()
    {
      var hsv := HsvOf(color, space);
      var next := FromHsv(hsv.hue, saturation, hsv.value, opacitySlider);
      SetCurrentColor(next.value);
    }

    /** onValueChanged: the colour takes the new value, keeping its own hue and saturation. */
    method OnValueChanged(value: Byte)
      modifies this`color, this`signals
      ensures var hsv := HsvOf(old(color), space);
              color == HsvColor(Hsv(hsv.hue, hsv.saturation, value), opacitySlider)
      ensures signals == old(signals) + [ColorChanged(color)]
      ensures old(SlidersShowColor()) ==> SlidersShowColor()
    {
      var hsv := HsvOf(color, space);
      var next := FromHsv(hsv.hue, hsv.saturation, value, opacitySlider);
      SetCurrentColor(next.value);
    }

    /** onOpacityChanged: the slider holds the new opacity, and the colour takes it and the hue slider's hue. */
    method OnOpacityChanged(opacity: Byte)
      modifies this`opacitySlider, this`color, this`signals
      ensures opacitySlider == opacity
      ensures var hsv := HsvOf(old(color), space);
              color == HsvColor(Hsv(hueSlider, hsv.saturation, hsv.value), opacity)
      ensures signals == old(signals) + [ColorChanged(color)]
      ensures SlidersShowColor()
    {
      opacitySlider := opacity;
      var hsv := HsvOf(color, space);
      var next := FromHsv(hueSlider, hsv.saturation, hsv.value, opacity);
      SetCurrentColor(next.value);
    }

    /**
     setHue, for a hue of 0 to 359: a different hue moves the slider, whose change
     recolours the editor (announced first) before the hue itself is announced.
     */
    method SetHue(hue: int)
      requires 0 <= hue <= 359
      modifies this`hueSlider, this`color, this`signals
      ensures hueSlider == hue
      ensures old(hueSlider) == hue ==> color == old(color) && signals == old(signals)
      ensures old(hueSlider) != hue ==>
                var hsv := HsvOf(old(color), space);
                color == HsvColor(Hsv(hue, hsv.saturation, hsv.value), opacitySlider)
                && signals == old(signals) + [ColorChanged(color), HueChanged(hue)]
      ensures old(SlidersShowColor()) ==> SlidersShowColor()
    {
      if hueSlider != hue {
        hueSlider := hue;
        OnHueChanged(hue);
        signals := signals + [HueChanged(hue)];
      }
    }

    /**
     setOpacity, for an opacity of 0 to 255: a different opacity moves the slider, whose
     change recolours the editor before the opacity itself is announced.
     */
    method SetOpacity(opacity: int)
      requires 0 <= opacity <= 255
      modifies this`opacitySlider, this`color, this`signals
      ensures opacitySlider == opacity
      ensures old(opacitySlider) == opacity ==> color == old(color) && signals == old(signals)
      ensures old(opacitySlider) != opacity ==>
                var hsv := HsvOf(old(color), space);
                color == HsvColor(Hsv(hueSlider, hsv.saturation, hsv.value), opacity)
                && signals == old(signals) + [ColorChanged(color), OpacityChanged(opacity)]
      ensures old(SlidersShowColor()) ==> SlidersShowColor()
    {
      if opacitySlider != opacity {
        opacitySlider := opacity;
        OnOpacityChanged(opacity);
        signals := signals + [OpacityChanged(opacity)];
      }
    }

    /** keyPressEvent: Return or Enter selects the colour in the output format. */
    method KeyPress(key: int)
      modifies this`signals
      ensures key == KeyReturn || key == KeyEnter ==>
                signals == old(signals) + [ColorSelected(color, outputFormat)]
      ensures key != KeyReturn && key != KeyEnter ==> signals == old(signals)
    {
      if key == KeyReturn || key == KeyEnter {
        signals := signals + [ColorSelected(color, outputFormat)];
      }
    }
  }
}

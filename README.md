# ColorPicker colour-literal engine, modelled in Dafny

This project models the core of the QtCreator ColorPicker plugin, which lets a user edit a colour literal under the cursor (`rgb(255, 0, 0)`, `Qt.rgba(...)`, `vec3(...)`, `#FF8800`, ...) in a pop-up colour editor. The model covers five parts.

- **Colour utilities** (`color_utilities.dfy`): the per-category format tables, the eight literal parsers, the eight serialisers, the `parseColor` and `colorToString` dispatch, and the two-decimal number printer. The proofs show that every serialised literal parses back to the format's reading of the colour it came from (its RGB, HSV or HSL components as that serialiser prints them), up to the 8-bit/hundredths quantisation the formats impose.
- **The colour editor** (`color_editor.dfy`): the current editor widget. It is a class holding the category, the available formats, the laid-out and checked family buttons, the output format, the colour, the hue and opacity sliders, and the emitted signals. A loop lays out the buttons.
- **The earlier colour editor** (`legacy_color_editor.dfy`): the widget with thirteen formats, where the alpha-carrying forms are formats of their own.
- **The plugin** (`color_picker_plugin.dfy`), which covers:
  - the category for an editor;
  - the placement of the pop-up;
  - the cache of one watcher per text editor;
  - the propagation of general-settings changes to the watchers and to the insert-on-change connections.
- **The colour modifier** (`color_modifier.dfy`): the older colour-type prefix and component formatter, and its remembered target.

Two supporting modules stand for library code:
- `colors.dfy` models the part of Qt's colour class that is used. Colours are on 8-bit channels, tagged with the model they were set in. The RGB/HSV/HSL conversions are a `ColorSpace` record of functions the model leaves uninterpreted.
- `text.dfy` models the string operations used (`QString::number`, `toInt`, `toDouble`, `remove`, `replace`, `insert`). Regular-expression capture groups are modelled by splitting a literal's parts at ", ".

Two behaviours of the code worth knowing:
- **The two-decimal printer.** It only collapses ".00" to ".0", so 0.5 prints as "0.50" and 1 as "1.0".
- **The HSV parser.** It reads its alpha as a percentage, while the other parsers read a fraction.

## Model

| member | source | states |
|---|---|---|
| ColorUtilities.FormatsFromCategory | colorpicker/colorutilities.cpp:263-299 | every category offers at least one format |
| ColorUtilities.AnyIsUnionOfCategories | colorpicker/colorutilities.cpp:263-299 | Any offers every format, and exactly the formats of the other four categories together |
| ColorUtilities.FormatsAreDistinct | colorpicker/colorutilities.cpp:263-299 | no category lists a format twice |
| ColorUtilities.ColorDoubleToStringShape | colorpicker/colorutilities.cpp:11-20 | the printed number is sign, whole part, '.', then two decimals, or "0" when both decimals are zero |
| ColorUtilities.ColorDoubleToStringExamples | colorpicker/colorutilities.cpp:11-20 | 0.5 prints "0.50", 1 prints "1.0", -1 prints "-1.0" |
| ColorUtilities.ColorDoubleToStringOfZero | colorpicker/colorutilities.cpp:11-20 | zero prints "0.0" |
| ColorUtilities.ColorDoubleToString | colorpicker/colorutilities.cpp:11-20 | the printer itself; ColorDoubleToStringShape gives its closed form and ToDoubleOfColorDoubleToString its exact read-back |
| ColorUtilities.ToDoubleOfColorDoubleToString | colorpicker/colorutilities.cpp:11-20 | toDouble reads back the exact hundredths printed |
| ColorUtilities.ParseQCssRgbUChar | colorpicker/colorutilities.cpp:22-36 | valid iff the three integers are bytes; the RGB is those integers; the alpha is setAlphaF of the fourth group's toDouble (clamped, nearest 255th), opaque without one |
| ColorUtilities.FloatAlpha | colorpicker/colorutilities.cpp:30-35 | an absent alpha group leaves the colour opaque; a present fraction is stored as its nearest byte |
| ColorUtilities.ParseCssRgbPercent | colorpicker/colorutilities.cpp:38-52 | valid iff every percentage is within 0..100%; each channel is the nearest byte to p/100 of 255; the alpha is setAlphaF of the fourth group's toDouble, opaque without one |
| ColorUtilities.ParseQssHsv | colorpicker/colorutilities.cpp:54-69 | valid iff hue >= -1 and saturation and value are bytes, which the colour keeps; the hue is wrapped modulo 360 (-1 kept); the alpha is the fourth group read as a percentage, clamped, opaque without one |
| ColorUtilities.PercentToByteTruncatingExample | colorpicker/colorutilities.cpp:74-75 | the HSL parser truncates: 50% is 127, 100% is 255 |
| ColorUtilities.ParseCssHsl | colorpicker/colorutilities.cpp:71-85 | valid iff hue >= -1 and both truncated percentages are bytes, which the colour keeps; the hue is wrapped modulo 360 (-1 kept); the alpha is setAlphaF of the fourth group's toDouble, opaque without one |
| ColorUtilities.ParseQmlRgba | colorpicker/colorutilities.cpp:87-95 | valid iff all four components are fractions (a missing fourth reads as 0); each channel and the alpha is the nearest byte to its fraction of 255 |
| ColorUtilities.ParseQmlHsla | colorpicker/colorutilities.cpp:97-105 | valid iff the hue is -1 or a fraction and the rest are fractions; the hue is -1 exactly for -1.0, else whole degrees of the turn; saturation, lightness and alpha are the nearest bytes |
| ColorUtilities.ParseGlslColor | colorpicker/colorutilities.cpp:107-121 | valid iff the three channels are fractions; each channel is the nearest byte; the alpha is setAlphaF of the fourth group's toDouble, opaque without one |
| ColorUtilities.ParseHexColor | colorpicker/colorutilities.cpp:123-126 | valid iff the match is '#' and six or eight hex digits; the digit pairs are the channels, alpha first when there are eight, opaque when six |
| ColorUtilities.ParserFor | colorpicker/colorutilities.cpp:301-333 | the parser of each format; ParseColor is proved to run exactly this one |
| ColorUtilities.ParseColor | colorpicker/colorutilities.cpp:301-333 | despite the lone `if` before the `else if` chain, exactly one parser per format takes effect |
| ColorUtilities.Serialise | colorpicker/colorutilities.cpp:335-365 | despite the lone `if` before the `else if` chain, exactly one serialiser per format takes effect |
| ColorUtilities.SerialiserFor | colorpicker/colorutilities.cpp:335-365 | the serialiser of each format; Serialise is proved to run exactly this one |
| ColorUtilities.CssRgbUCharToString | colorpicker/colorutilities.cpp:131-144 | "rgb(" or, when translucent, "rgba(" with the alpha (PrefixRule); parsed back by RgbUCharRoundTrip |
| ColorUtilities.CssRgbPercentToString | colorpicker/colorutilities.cpp:146-166 | rounded percentages, "rgba(" with the alpha when translucent (PrefixRule); parsed back by RgbPercentRoundTrip |
| ColorUtilities.QssHsvToString | colorpicker/colorutilities.cpp:168-182 | the HSV reading, "hsva(" with a percentage alpha when it rounds below 100 (PrefixRule, AlphaComponentRule); parsed back by HsvRoundTrip |
| ColorUtilities.CssHslToString | colorpicker/colorutilities.cpp:184-201 | the HSL reading with rounded percentages, "hsla(" when translucent (PrefixRule); parsed back by HslRoundTrip |
| ColorUtilities.QmlRgbaToString | colorpicker/colorutilities.cpp:203-210 | four fractions always (AlphaComponentRule); parsed back by QmlRgbaRoundTrip |
| ColorUtilities.QmlHslaToString | colorpicker/colorutilities.cpp:212-220 | the HSV hue (as HueHundredths of a turn) and saturation, the HSL lightness and the alpha, as fractions; parsed back by QmlHslaRoundTrip |
| ColorUtilities.GlslColorToString | colorpicker/colorutilities.cpp:222-240 | "vec3(" with three fractions, or "vec4(" with the alpha when translucent (PrefixRule); parsed back by GlslRoundTrip |
| ColorUtilities.HexColorToString | colorpicker/colorutilities.cpp:242-256 | upper-case digits, the alpha pair first when translucent (HexPartsEnd, HexTextSpells); parsed back by HexRoundTrip |
| ColorUtilities.Render | colorpicker/colorutilities.cpp:370-373 | prefix, parts and a closing ')' unless hex; ColorToString states the ends |
| ColorUtilities.ColorToString | colorpicker/colorutilities.cpp:335-378 | a non-hex literal ends in ')', and only the hex literal starts with '#' |
| ColorUtilities.PrefixRule | colorpicker/colorutilities.cpp:131-256 | the prefix of each format, with 'a' inserted (or vec4) exactly when an alpha is written |
| ColorUtilities.HexPartsEnd | colorpicker/colorutilities.cpp:242-256 | the hex digits number 8 iff translucent, 6 iff opaque |
| ColorUtilities.RgbUCharRoundTrip | colorpicker/colorutilities.cpp:131-144 | integer RGB reparses (parser lines 22-36) to the same RGB with the alpha requantised to hundredths |
| ColorUtilities.RgbPercentRoundTrip | colorpicker/colorutilities.cpp:146-166 | percentage RGB reparses (parser lines 38-52) to each channel and the alpha requantised |
| ColorUtilities.HsvRoundTrip | colorpicker/colorutilities.cpp:168-182 | HSV reparses (parser lines 54-69) to the same HSV with the alpha requantised |
| ColorUtilities.HslRoundTrip | colorpicker/colorutilities.cpp:184-201 | HSL reparses (parser lines 71-85) to the wrapped hue, the truncated percentages and the requantised alpha |
| ColorUtilities.HslLosslessOnGrid | colorpicker/colorutilities.cpp:184-201 | an opaque HSL colour on the percentage grid reparses to itself |
| ColorUtilities.QmlRgbaRoundTrip | colorpicker/colorutilities.cpp:203-210 | Qt.rgba reparses (parser lines 87-95) to every channel and the alpha requantised |
| ColorUtilities.QmlHslaRoundTrip | colorpicker/colorutilities.cpp:212-220 | Qt.hsla reparses (parser lines 97-105) to the HSV hue and saturation and the HSL lightness, requantised; the hue comes back from the hundredths HueHundredths prints |
| ColorUtilities.QmlHslaTieHueExample | colorpicker/colorutilities.cpp:212-220 | a 27-degree hue prints as 0.07 and reads back as 25 degrees |
| ColorUtilities.GlslRoundTrip | colorpicker/colorutilities.cpp:222-240 | vec3/vec4 reparses (parser lines 107-121) to the requantised channels and alpha |
| ColorUtilities.HexRoundTrip | colorpicker/colorutilities.cpp:242-256 | the hex literal reparses (parser lines 123-126) to exactly the RGB and alpha |
| ColorUtilities.HexTextSpells | colorpicker/colorutilities.cpp:242-256 | the rendered hex text names the colour it was made from |
| ColorUtilities.RgbFamilyLosslessOnGrid | colorpicker/colorutilities.cpp:131-166 | on the hundredths grid both RGB formats reparse an RGB colour to itself |
| ColorUtilities.AlphaComponentRule | colorpicker/colorutilities.cpp:131-256 | which formats print a fourth component, and when: HSV shows its alpha iff alpha < 254, so 254 and 255 both look opaque |
| ColorUtilities.HexLiteralExample | colorpicker/colorutilities.cpp:242-256 | opaque orange is "#FF8800" |
| ColorUtilities.RgbaLiteralExample | colorpicker/colorutilities.cpp:131-144 | red with alpha 128 is "rgba(255, 0, 0, 0.50)" |
| ColorUtilities.VecLiteralExample | colorpicker/colorutilities.cpp:222-240 | opaque black is "vec3(0.0, 0.0, 0.0)" |
| Colors.SetRgb | colorpicker/colorutilities.cpp:28 | setRgb is valid iff the channels are bytes, and opaque |
| Colors.SetRgbF | colorpicker/colorutilities.cpp:44 | setRgbF is valid iff the channels are fractions, and then gives the nearest byte of each, opaque |
| Colors.SetHsv | colorpicker/colorutilities.cpp:60 | setHsv is valid iff hue >= -1 and the rest are bytes; the stored hue is wrapped modulo 360, -1 kept |
| Colors.SetHsl | colorpicker/colorutilities.cpp:77 | setHsl is valid iff hue >= -1 and the rest are bytes; the stored hue is wrapped modulo 360, -1 kept |
| Colors.SetRgbaF | colorpicker/colorutilities.cpp:94 | setRgbF with alpha is valid iff all four are fractions, and then gives the nearest byte of each |
| Colors.SetHslF | colorpicker/colorutilities.cpp:104 | setHslF is valid iff the hue is -1 or a fraction and the rest are fractions; an achromatic hue is kept, any other is whole degrees of the turn; saturation, lightness and alpha are the nearest bytes |
| Colors.SetAlphaF | colorpicker/colorutilities.cpp:34 | setAlphaF clamps, rounds and changes only the alpha |
| Colors.SetNamedColor | colorpicker/colorutilities.cpp:125 | valid iff '#' and six or eight hex digits in either case; the digit pairs are the channels, alpha first when eight, opaque when six |
| Colors.ByteFromFraction | colorpicker/colorutilities.cpp:44 | a fraction is stored as the nearest byte of 255ths |
| Colors.WrapHue | colorpicker/colorutilities.cpp:60 | an achromatic hue stays -1; any other hue is reduced modulo 360 |
| Colors.FromHsv | colorpicker/widgets/coloreditor.cpp:313-316 | fromHsv is valid iff the hue is -1 or 0 to 359 (not wrapped, unlike setHsv) and the rest are bytes, and keeps the alpha |
| Colors.Name | colormodifier.cpp:111-113 | the name is '#' and six hex digits |
| Colors.SetNamedColorOfName | colormodifier.cpp:111-113 | reading a colour's name back gives its RGB, made opaque |
| Colors.SameColorIsEquivalence | colorpicker/widgets/coloreditor.cpp:513 | the colour class's equality used by setColor is an equivalence; equal colours share alpha and model, and outside HSL are identical |
| Colors.SameColorExamples | widgets/coloreditor.cpp:431 | HSL colours with lightness 0 are equal whatever their saturation, hue 360 equals hue 0, and -1 matches only -1 |
| Colors.HundredthsFromByte | colorpicker/colorutilities.cpp:149 | qRound(f * 100) of a channel, within half a step |
| Colors.HueHundredths | colorpicker/colorutilities.cpp:215 | the two-decimal print of hueF(): the nearest hundredth of h/360, and a tie (h = 9 mod 18) lands exactly half a step above the hue iff h is one of the eight hues whose double lies below the tie |
| Colors.HueHundredthsExamples | colorpicker/colorutilities.cpp:215 | 9 and 45 degrees round up to 0.03 and 0.13, 27 degrees prints as 0.07, 28 as 0.08 |
| Colors.FromHsvReadsBack | colorpicker/widgets/coloreditor.cpp:313-316 | a valid fromHsv colour reads back exactly its hue, saturation and value |
| ColorEditor.ButtonFormatMapsBack | colorpicker/widgets/coloreditor.cpp:421-427 | the format a button selects belongs to that button |
| ColorEditor.SharedButtons | colorpicker/widgets/coloreditor.cpp:267-300 | two formats share a button iff equal or the two RGB formats |
| ColorEditor.ColorFormatToButton | colorpicker/widgets/coloreditor.cpp:267-300 | the button of each format; SharedButtons: only the two RGB formats share one |
| ColorEditor.ButtonFormat | colorpicker/widgets/coloreditor.cpp:421-427 | the format a click selects; ButtonFormatMapsBack: it maps back to the clicked button |
| ColorEditor.ButtonOfFormatSelects | colorpicker/widgets/coloreditor.cpp:267-300 | a button reselects its format for every format except RGB percentages |
| ColorEditor.FormatButtons | colorpicker/widgets/coloreditor.cpp:182-236 | a button is laid out iff its format is available, in layout order |
| ColorEditor.PercentAloneHidesRgb | colorpicker/widgets/coloreditor.cpp:182-188 | the percentage format alone does not show the rgb button |
| ColorEditor.AnyShowsEveryButton | colorpicker/widgets/coloreditor.cpp:173-239 | the Any category lays out all seven buttons in order |
| ColorEditor.SliderHue | colorpicker/widgets/coloreditor.cpp:164 | the hue slider shows the hue; an achromatic hue sits at 0 |
| ColorEditor.ColorEditor.constructor | colorpicker/widgets/coloreditor.cpp:358-455 | a new editor is valid, in Any, integer RGB (button checked), red, announcing only the colour |
| ColorEditor.ColorEditor.UpdateFormatsLayout | colorpicker/widgets/coloreditor.cpp:173-239 | the loop lays out exactly the buttons whose format is available |
| ColorEditor.ColorEditor.ReplaceAvailableFormats | colorpicker/widgets/coloreditor.cpp:241-246 | stores the formats and relays the buttons |
| ColorEditor.ColorEditor.SetCurrentFormat | colorpicker/widgets/coloreditor.cpp:248-253 | stores and announces the format |
| ColorEditor.ColorEditor.SetCurrentColor | colorpicker/widgets/coloreditor.cpp:260-265 | stores and announces the colour |
| ColorEditor.ColorEditor.SetColorCategory | colorpicker/widgets/coloreditor.cpp:465-482 | a new category makes the buttons agree with it and selects its first format silently; the same category changes nothing; the colour and signals stay, and a valid editor stays valid |
| ColorEditor.ColorEditor.SetOutputFormat | colorpicker/widgets/coloreditor.cpp:494-504 | a new format checks its button and is announced once; the same one changes nothing |
| ColorEditor.ColorEditor.OnButtonClicked | colorpicker/widgets/coloreditor.cpp:429-434 | a click selects and announces the button's format |
| ColorEditor.ColorEditor.SetColor | colorpicker/widgets/coloreditor.cpp:511-517 | a colour unequal under the colour class's equality moves the sliders to it and is announced; an equal one, even if not identical, changes nothing |
| ColorEditor.ColorEditor.OnPickerColorChanged | colorpicker/widgets/coloreditor.cpp:302-309 | the picked colour takes the opacity slider's alpha and is announced |
| ColorEditor.ColorEditor.OnHueChanged | colorpicker/widgets/coloreditor.cpp:311-320 | the slider holds the new hue; the colour takes it, keeping saturation, value and the slider's opacity, one ColorChanged is emitted, and the sliders show the colour |
| ColorEditor.ColorEditor.OnSaturationChanged | colorpicker/widgets/coloreditor.cpp:322-331 | the colour takes the new saturation; the sliders still show it |
| ColorEditor.ColorEditor.OnValueChanged | colorpicker/widgets/coloreditor.cpp:333-342 | the colour takes the new value; the sliders still show it |
| ColorEditor.ColorEditor.OnOpacityChanged | colorpicker/widgets/coloreditor.cpp:344-353 | the slider holds the new opacity; the colour takes it and the hue slider's hue, one ColorChanged is emitted, and the sliders show the colour |
| ColorEditor.ColorEditor.SetHue | colorpicker/widgets/coloreditor.cpp:524-533 | a new hue recolours, then announces the colour and the hue |
| ColorEditor.ColorEditor.SetOpacity | colorpicker/widgets/coloreditor.cpp:540-549 | a new opacity recolours, then announces the colour and the opacity |
| ColorEditor.ColorEditor.KeyPress | colorpicker/widgets/coloreditor.cpp:551-558 | Return or Enter selects the colour in the output format; other keys do nothing |
| LegacyColorEditor.CategoryFormats | widgets/coloreditor.cpp:366-396 | every category offers at least one format |
| LegacyColorEditor.AnyIsUnion | widgets/coloreditor.cpp:368-396 | Any offers every format, and exactly those of the other categories together |
| LegacyColorEditor.QssAndCssDiffer | widgets/coloreditor.cpp:378-387 | Qss and Css share RGB and hex; only HSV is Qss, and only HSL is Css |
| LegacyColorEditor.CategoriesCloseUnderSiblings | widgets/coloreditor.cpp:368-396 | a category that offers a format offers its alpha sibling |
| LegacyColorEditor.SiblingsShareButton | widgets/coloreditor.cpp:212-250 | a base format and its alpha sibling share a button |
| LegacyColorEditor.ColorFormatToButton | widgets/coloreditor.cpp:212-250 | the button of each of the thirteen formats; SiblingsShareButton: a format and its alpha sibling share it |
| LegacyColorEditor.FormatForButton | widgets/coloreditor.cpp:483-515 | the format a checked button picks, as written; FormatForButtonMapsBack and AlphaChoiceAsWritten state it |
| LegacyColorEditor.IntendedFormatForButton | widgets/coloreditor.cpp:483-515 | the corrected choice; IntendedAlphaChoice: alpha iff translucent for every sibling family |
| LegacyColorEditor.FormatForButtonMapsBack | widgets/coloreditor.cpp:483-515 | the chosen format belongs to the clicked button |
| LegacyColorEditor.AlphaChoiceAsWritten | widgets/coloreditor.cpp:487-512 | rgb, hsl and hsv add alpha iff translucent; Qt.rgba, Qt.hsla and hex ignore it; vec is reversed |
| LegacyColorEditor.VecChoiceDropsAlpha | widgets/coloreditor.cpp:507-509 | translucent red on the vec button gets vec3, which has no alpha |
| LegacyColorEditor.IntendedAlphaChoice | widgets/coloreditor.cpp:489-509 | with the corrected vec branch, every family with a sibling adds alpha iff translucent |
| LegacyColorEditor.LayoutButtons | widgets/coloreditor.cpp:123-189 | a button is laid out iff its family's base format is available, in order |
| LegacyColorEditor.ButtonShownIffFamilyOffered | widgets/coloreditor.cpp:123-189 | a category shows a button iff it offers some format of that family |
| LegacyColorEditor.ShownByBelongs | widgets/coloreditor.cpp:123-189 | the format that shows a button belongs to it |
| LegacyColorEditor.BaseOffered | widgets/coloreditor.cpp:368-396 | a category offering a format offers that family's base format |
| LegacyColorEditor.ColorEditor.constructor | widgets/coloreditor.cpp:255-351 | a new editor is valid, in Any, integer RGB, red, announcing only the colour |
| LegacyColorEditor.ColorEditor.UpdateFormatsLayout | widgets/coloreditor.cpp:123-189 | the loop lays out exactly the buttons whose base format is available |
| LegacyColorEditor.ColorEditor.SetCurrentFormat | widgets/coloreditor.cpp:198-203 | stores and announces the format |
| LegacyColorEditor.ColorEditor.SetCurrentColor | widgets/coloreditor.cpp:205-210 | stores and announces the colour |
| LegacyColorEditor.ColorEditor.SetColorCategory | widgets/coloreditor.cpp:361-400 | a new category replaces formats and layout but keeps the output format |
| LegacyColorEditor.ColorEditor.SetOutputFormat | widgets/coloreditor.cpp:412-422 | a new format checks its button and is announced; the same one changes nothing |
| LegacyColorEditor.ColorEditor.OnFormatButtonChecked | widgets/coloreditor.cpp:483-515 | the button's format, chosen by alpha as written, is stored and announced |
| LegacyColorEditor.ColorEditor.OnFormatButtonCheckedIntended | widgets/coloreditor.cpp:483-515 | the corrected choice: the output format has alpha iff the colour is translucent |
| LegacyColorEditor.ColorEditor.SetColor | widgets/coloreditor.cpp:429-435 | a colour unequal under the colour class's equality moves the sliders and is announced; an equal one changes nothing |
| LegacyColorEditor.ColorEditor.OnPickerColorChanged | widgets/coloreditor.cpp:316-323 | the picked colour takes the opacity slider's alpha and is announced |
| LegacyColorEditor.ColorEditor.OnHueChanged | widgets/coloreditor.cpp:325-335 | the slider holds the new hue; the colour takes it, keeping saturation, value and the slider's opacity, one ColorChanged is emitted, and the sliders show the colour |
| LegacyColorEditor.ColorEditor.OnOpacityChanged | widgets/coloreditor.cpp:337-347 | the slider holds the new opacity; the colour takes it and the hue slider's hue, one ColorChanged is emitted, and the sliders show the colour |
| LegacyColorEditor.ColorEditor.SetHue | widgets/coloreditor.cpp:442-451 | a new hue recolours, then announces the colour and the hue |
| LegacyColorEditor.ColorEditor.SetOpacity | widgets/coloreditor.cpp:458-467 | a new opacity recolours, then announces the colour and the opacity |
| ColorPickerPlugin.ColorCategoryForEditor | colorpicker/colorpickerplugin.cpp:44-56 | QML editors get Qml, GLSL editors get Glsl, every other editor Any, each iff |
| ColorPickerPlugin.EffectiveCategory | colorpicker/colorpickerplugin.cpp:196-198 | Any without sensitivity, the editor's own category with it |
| ColorPickerPlugin.NarrowedOnlyWhenSensitive | colorpicker/colorpickerplugin.cpp:103-104 | the category is narrowed iff sensitive and the editor is QML or GLSL |
| ColorPickerPlugin.ClampColorEditorPosition | colorpicker/colorpickerplugin.cpp:58-78 | the pop-up keeps the cursor's y |
| ColorPickerPlugin.ClampCases | colorpicker/colorpickerplugin.cpp:58-78 | x is 0 at the left edge, right - width at the right edge, and otherwise centred on the cursor |
| ColorPickerPlugin.ClampKeepsEditorInside | colorpicker/colorpickerplugin.cpp:58-78 | an editor strictly narrower than the viewport stays inside it |
| ColorPickerPlugin.ClampRightOneShort | colorpicker/colorpickerplugin.cpp:72-73 | as written, a right-clamped editor ends one column before the last, and one as wide as the viewport starts at -1 |
| ColorPickerPlugin.ClampFullWidthExample | colorpicker/colorpickerplugin.cpp:72-73 | columns 0..99, width 100, cursor at 60: the editor starts at -1 |
| ColorPickerPlugin.IntendedClampColorEditorPosition | colorpicker/colorpickerplugin.cpp:58-78 | the corrected clamp keeps the cursor's y |
| ColorPickerPlugin.IntendedClampKeepsEditorInside | colorpicker/colorpickerplugin.cpp:58-78 | corrected, every editor no wider than the viewport stays inside it, and a right-clamped one ends on the last column |
| ColorPickerPlugin.ClampExamples | colorpicker/colorpickerplugin.cpp:58-78 | left-clamped, right-clamped and centred positions, with an odd width |
| ColorPickerPlugin.HandlersGetStaleValue | colorpicker/colorpickerplugin.cpp:238-258 | a handler runs iff its flag changes, and as written it gets the opposite of the new flag |
| ColorPickerPlugin.IntendedHandlersGetNewValue | colorpicker/colorpickerplugin.cpp:238-258 | the corrected handlers run in the same order and get the new flags |
| ColorPickerPlugin.HandlerCalls | colorpicker/colorpickerplugin.cpp:238-258 | the handler calls as written; HandlersGetStaleValue: one per changed flag, each passed the stored flag; SettingsFollowHandlerCalls: they produce the settings effects |
| ColorPickerPlugin.ConnectionsAfter | colorpicker/colorpickerplugin.cpp:80-96 | enabling adds a connection pair; disabling removes all |
| ColorPickerPlugin.InsertOnChangeInverted | colorpicker/colorpickerplugin.cpp:243-254 | as written, toggling insert-on-change leaves connections iff it was switched off |
| ColorPickerPlugin.IntendedConnectionsFollowSetting | colorpicker/colorpickerplugin.cpp:243-254 | corrected, there is one pair iff insert-on-change is on |
| ColorPickerPlugin.SettingsConnections | colorpicker/colorpickerplugin.cpp:243-254 | the connection count as written; InsertOnChangeInverted: it ends opposite to the setting |
| ColorPickerPlugin.SensitivityInverted | colorpicker/colorpickerplugin.cpp:240-249 | as written, turning sensitivity off leaves a QML watcher at Qml, and on leaves it at Any |
| ColorPickerPlugin.IntendedCategoryFollowsSetting | colorpicker/colorpickerplugin.cpp:240-249 | corrected, every watcher ends at its effective category |
| ColorPickerPlugin.SettingsCategory | colorpicker/colorpickerplugin.cpp:240-249 | a watcher's category as written; SensitivityInverted: it keeps the previous effective category |
| ColorPickerPlugin.SettingsFollowHandlerCalls | colorpicker/colorpickerplugin.cpp:240-254 | as written, a watcher's category is the effective category for the flag its handler call passes, the connections are setInsertOnChange of the flag its call passes, and each is unchanged without a call |
| ColorPickerPlugin.IntendedSettingsFollowHandlerCalls | colorpicker/colorpickerplugin.cpp:240-254 | the same for the corrected handler calls and effects |
| ColorPickerPlugin.ShownColor | colorpicker/widgets/coloreditor.cpp:511-517 | the editor's colour after setColor: equal to the given one under the colour class's equality, and either it or the old colour |
| ColorPickerPlugin.ColorWatcher.constructor | colorpicker/colorpickerplugin.cpp:203 | a watcher belongs to its editor |
| ColorPickerPlugin.ColorWatcher.SetColorCategory | colorpicker/colorpickerplugin.cpp:107 | the watcher takes the category |
| ColorPickerPlugin.Plugin.constructor | colorpicker/colorpickerplugin.cpp:135-185 | a new plugin is valid, with no watchers, no parent, a fresh editor and connections per the setting |
| ColorPickerPlugin.Plugin.SetInsertOnChange | colorpicker/colorpickerplugin.cpp:80-96 | connect adds a pair; disconnect removes all |
| ColorPickerPlugin.Plugin.InsertOnChangeSettingChanged | colorpicker/colorpickerplugin.cpp:119-122 | forwards to setInsertOnChange |
| ColorPickerPlugin.Plugin.EditorSensitiveSettingChanged | colorpicker/colorpickerplugin.cpp:98-117 | the loop sets every watcher, and the colour editor when its parent is a watched editor, to that editor's category under the given sensitivity; otherwise the colour editor keeps its category; its colour and signals never change, a valid colour editor stays valid, and the watchers stay on distinct editors |
| ColorPickerPlugin.Plugin.AddWatcher | colorpicker/colorpickerplugin.cpp:200-210 | a text editor gets one fresh watcher on first use, searching the editor's effective category under the stored sensitivity; existing watchers stay; a valid plugin stays valid, and any plugin with distinct watchers is accepted |
| ColorPickerPlugin.Plugin.ShowColorEditor | colorpicker/colorpickerplugin.cpp:214-234 | the colour editor takes the category and stays valid; with a colour found it takes the found format and (under the colour class's equality) the found colour, emitting outputFormatChanged iff the format differs from the one setColorCategory left and colorChanged iff the colour differs; with none found its colour and signals stay and its format is the one setColorCategory left (the new category's first, or the old one); it is parented and shown at the clamped position |
| ColorPickerPlugin.Plugin.OnColorEditTriggered | colorpicker/colorpickerplugin.cpp:187-236 | ignores non-text editors, leaving the colour editor untouched; otherwise caches a watcher (a new one searches the effective category) and shows the colour editor with ShowColorEditor's category, format, colour and signals; accepted in any state with distinct watchers; a valid plugin and a valid colour editor stay valid |
| ColorPickerPlugin.Plugin.OnGeneralSettingsChanged | colorpicker/colorpickerplugin.cpp:238-258 | as written: stores the settings; connections, watcher categories and the parented colour editor's category follow the stale flags; the colour editor's colour and signals stay, it stays valid, and the watchers stay distinct |
| ColorPickerPlugin.Plugin.OnGeneralSettingsChangedIntended | colorpicker/colorpickerplugin.cpp:238-258 | corrected: stores the settings and keeps the plugin, including its colour editor, valid; the parented colour editor's category follows the new flag; its colour and signals stay |
| ColorPickerPlugin.Plugin.OnEditorAboutToClose | colorpicker/colorpickerplugin.cpp:260-263 | the editor loses its parent |
| ColorModifier.ColorTypePrefix | colormodifier.cpp:32-72 | every prefix ends in '('; the hex type has none |
| ColorModifier.AlphaPrefixInsertsA | colormodifier.cpp:37-54 | rgba(, hsla( and hsva( are the base prefix with 'a' before '(' |
| ColorModifier.PrefixesDistinct | colormodifier.cpp:36-67 | two types share a prefix iff they are equal |
| ColorModifier.ColorComponents | colormodifier.cpp:74-139 | the hex components are '#' and six hex digits |
| ColorModifier.AlphaComponentsExtend | colormodifier.cpp:83-124 | each alpha type is its base type's components, then ", " and the alpha |
| ColorModifier.HexComponentsReadBack | colormodifier.cpp:111-113 | the hex name reads back as the RGB, made opaque |
| ColorModifier.IntegerComponentsReadBack | colormodifier.cpp:78-110 | the rgb, hsv and hsl components split into three integers |
| ColorModifier.InlineCtorReadBack | colormodifier.cpp:125-134 | QColor( components read back as RGB, plus the alpha as a fourth field iff not opaque |
| ColorModifier.InlineCtorExtendsRgb | colormodifier.cpp:125-134 | QColor( components are the rgb components, with ", alpha" iff alpha != 255 |
| ColorModifier.ColorModifier.constructor | colormodifier.cpp:25-29 | a new modifier holds the default expression |
| ColorModifier.ColorModifier.SetTarget | colormodifier.cpp:174-178 | afterwards the target is the given expression |

## Left out

- Parsing literals out of text: the regular expressions, the cursor locator and `ColorWatcher::process` are not part of this model. How a match breaks into groups is modelled by splitting at ", ". The watcher's result is a parameter of `OnColorEditTriggered`.
- Inserting into the document: `insertColor` in the plugin (`onColorSelected`, `onColorChanged`, `onOutputFormatChanged`) and in the colour modifier is left out. The modifier's version is unfinished and only positions a text cursor.
- Widgets: painting, layout geometry, the saturation/value sliders' own positions, the picker's cursor, showing and moving widgets. The editor's width, the viewport's right edge and the picked colour are parameters.
- Qt's colour class: 16-bit channel storage, the RGB↔HSV↔HSL conversions (left uninterpreted), and `setNamedColor` forms other than `#RRGGBB` and `#AARRGGBB`.
- Colour equality: HSL hues are kept in whole degrees, so two `setHslF` colours whose hues differ by less than a degree are equal here, while the library compares hundredths of a degree.
- Floating point: fractions of 8-bit channels are exact rationals with round-half-up; `qRound` ties on negative values are not modelled. The hue fraction h/360 is also an exact rational; where it ties between two hundredths, the side its double falls on is written out as the constant `Colors.TiesPrintedLow` rather than derived from the binary representation.
- `toInt` and `toDouble` do not accept surrounding whitespace or exponents. The default-format `QString::number` of a fraction in the colour modifier is an uninterpreted parameter.
- A `ColorFormatSet` is modelled as a sequence in insertion order.
- A default-constructed colour format is taken to be the first enumerator.
- Objects are identified by value: an editor is a handle with its context id and whether it is a text editor. Its widget's viewport is the editor itself.
- `colorpickerplugin_p.h` declares a dialog member, while the `.cpp` uses the colour editor. The model follows the `.cpp`.
- Slider signals: `setValueAtomic` is taken not to emit, and `click()` on a button whose group is blocked only checks it.
- ColorEditor.ColorEditor.SetHue: the hue range 0..359 is a precondition, because the source asserts it.
- ColorEditor.ColorEditor.SetOpacity: the opacity range 0..255 is a precondition, because the source asserts it.
- LegacyColorEditor.ColorEditor.SetHue: the hue range 0..359 is a precondition, because the source asserts it.
- LegacyColorEditor.ColorEditor.SetOpacity: the opacity range 0..255 is a precondition, because the source asserts it.
- ColorEditor.ColorEditor.SetColor: an invalid colour cannot be passed, because colours in the model are always valid.
- ColorModifier.ColorComponents: the HSL types print the HSV hue and saturation with the HSL lightness, as written, and no stronger property is claimed for them.
- ColorUtilities.QmlHslaRoundTrip: the hue and saturation come back from the HSV reading, as written, so the round trip is stated against those values rather than the HSL ones.
- ColorPickerPlugin.Plugin.EditorSensitiveSettingChanged: all watchers are updated, but not in `QMap` key order. Only one editor's viewport can be the colour editor's parent, so the result does not depend on the order.
- The menu, action and shortcut registration in `initialize`, and the options page, are left out. The stored settings are a constructor parameter.

## Findings

| source | as written | input that shows it | evidently intended | confidence | as-written member | corrected member |
|---|---|---|---|---|---|---|
| colorpicker/colorpickerplugin.cpp:240-253 | the "old" values are read from the incoming settings and the "new" ones from the stored settings, so each handler runs with the previous flag | stored (sensitive, insert) = (true, false), incoming (false, false): the QML watcher stays at Qml. Stored insert false, incoming true: connections drop to 0 | handlers get the incoming flags, so there is one connection pair iff insert-on-change is on, and every watcher has its effective category | not executed | ColorPickerPlugin.Plugin.OnGeneralSettingsChanged (lemmas ColorPickerPlugin.HandlersGetStaleValue, ColorPickerPlugin.InsertOnChangeInverted, ColorPickerPlugin.SensitivityInverted) | ColorPickerPlugin.Plugin.OnGeneralSettingsChangedIntended (lemmas ColorPickerPlugin.IntendedConnectionsFollowSetting, ColorPickerPlugin.IntendedCategoryFollowsSetting) |
| widgets/coloreditor.cpp:507-509 | the vec button picks Vec3 when the colour is translucent and Vec4 when opaque | red with alpha 128, vec button: Vec3, which has no alpha | Vec4 when translucent, Vec3 when opaque, like the other families | not executed | LegacyColorEditor.ColorEditor.OnFormatButtonChecked (lemma LegacyColorEditor.VecChoiceDropsAlpha) | LegacyColorEditor.ColorEditor.OnFormatButtonCheckedIntended (lemma LegacyColorEditor.IntendedAlphaChoice) |
| colorpicker/colorpickerplugin.cpp:72-73 | a right-clamped editor is placed at `rect.right() - width`, but `right()` is the last column, one less than the viewport's width | viewport columns 0..99, editor 100 wide, cursor at 60: x = -1, and every right-clamped editor stops one column short of the edge | `right() - width + 1`, so a right-clamped editor ends on the last column and one as wide as the viewport starts at 0 | not executed; the one-column gap may be harmless on screen | ColorPickerPlugin.ClampColorEditorPosition (lemmas ColorPickerPlugin.ClampRightOneShort, ColorPickerPlugin.ClampFullWidthExample) | ColorPickerPlugin.IntendedClampColorEditorPosition (lemma ColorPickerPlugin.IntendedClampKeepsEditorInside) |

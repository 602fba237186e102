/**
 The plugin object: which colour category an editor gets, the cache of one colour
 watcher per text editor, where the colour editor pops up, and how a change of the
 general settings reaches the watchers and the insert-on-change connections.

 An editor is represented by a handle, the last id of its context and whether its
 widget is a text editor; the viewport of an editor's widget is identified with the
 editor. The colour-literal search a watcher performs, the document edit behind
 insertColor and the widget geometry are not part of this model: the caller passes
 the watcher's result, the viewport's right edge and the colour editor's width.
 */
module ColorPickerPlugin {
  import opened Wrappers
  import opened Text
  import opened Colors
  import opened ColorUtilities
  import CE = ColorEditor

  /** The last id of an editor's context that matters to the plugin. */
  datatype ContextId = QmlJsEditorId | GlslEditorId | OtherId(name: string)

  datatype Editor = Editor(handle: nat, lastContextId: ContextId, isTextEditor: bool)

  datatype Point = Point(x: int, y: int)

  datatype GeneralSettings = GeneralSettings(editorSensitive: bool, insertOnChange: bool)

  /** What a watcher finds at the cursor: a colour (or none), its format and the cursor position. */
  datatype ColorExpr = ColorExpr(value: Option<Color>, format: ColorFormat, pos: Point)

  /** A handler that onGeneralSettingsChanged runs, with the value it passes. */
  datatype HandlerCall =
    | EditorSensitiveChanged(isSensitive: bool)
    | InsertOnChangeChanged(insertOnChange: bool)

  // ---------------------------------------------------------------- categories

  /** colorCategoryForEditor: QML and GLSL editors get their own category, every other editor Any. */
  function ColorCategoryForEditor(e: Editor): (c: ColorCategory)
    ensures c == QmlCategory <==> e.lastContextId == QmlJsEditorId
    ensures c == GlslCategory <==> e.lastContextId == GlslEditorId
    ensures c == AnyCategory <==> e.lastContextId.OtherId?
  {
    if e.lastContextId == QmlJsEditorId then QmlCategory
    else if e.lastContextId == GlslEditorId then GlslCategory
    else AnyCategory
  }

  /** The category the plugin uses: the editor's own when the setting is editor-sensitive, Any otherwise. */
  function EffectiveCategory(editorSensitive: bool, e: Editor): (c: ColorCategory)
    ensures !editorSensitive ==> c == AnyCategory
    ensures editorSensitive ==> c == ColorCategoryForEditor(e)
  {
    if editorSensitive then ColorCategoryForEditor(e) else AnyCategory
  }

  /** Only a QML or GLSL editor with sensitivity on narrows the category. */
  lemma NarrowedOnlyWhenSensitive(editorSensitive: bool, e: Editor)
    ensures EffectiveCategory(editorSensitive, e) != AnyCategory
            <==> editorSensitive && !e.lastContextId.OtherId?
  {
  }

  // ---------------------------------------------------------------- position

  /**
   clampColorEditorPosition: the editor is centred on the cursor's x (half its width
   by C integer division), pushed right to 0 when that is negative, or else flush
   with the right edge when its right half would pass it; the cursor's y is kept.
   */
  function ClampColorEditorPosition(cursor: Point, right: int, width: int): (p: Point)
    ensures p.y == cursor.y
  {
    var half := CDiv(width, 2);
    var posX := cursor.x - half;
    var x := if posX < 0 then 0 else if cursor.x + half > right then right - width else posX;
    Point(x, cursor.y)
  }

  /** The three cases of the x coordinate. */
  lemma ClampCases(cursor: Point, right: int, width: int)
    ensures var p := ClampColorEditorPosition(cursor, right, width);
            var half := CDiv(width, 2);
            (cursor.x - half < 0 ==> p.x == 0)
            && (0 <= cursor.x - half && cursor.x + half > right ==> p.x == right - width)
            && (0 <= cursor.x - half && cursor.x + half <= right ==> p.x + half == cursor.x)
  {
  }

  /**
   The viewport's columns are 0 to `right` (the last column, as QRect::right() gives it).
   An editor strictly narrower than the viewport lies inside it: its first column is at
   least 0 and its last column, x + width - 1, at most the right edge.
   */
  lemma ClampKeepsEditorInside(cursor: Point, right: int, width: int)
    requires 0 <= width <= right
    ensures var p := ClampColorEditorPosition(cursor, right, width);
            0 <= p.x && p.x + width - 1 <= right
  {
    var half := CDiv(width, 2);
    assert half == width / 2;
    assert 2 * half <= width <= 2 * half + 1;
  }

  /**
   As written, the right-hand clamp subtracts the width from the last column rather than
   from the column after it: a right-clamped editor always ends one column short of the
   edge, and one exactly as wide as the viewport starts at column -1.
   */
  lemma ClampRightOneShort(cursor: Point, right: int, width: int)
    requires 0 <= width
    requires 0 <= cursor.x - CDiv(width, 2) && cursor.x + CDiv(width, 2) > right
    ensures var p := ClampColorEditorPosition(cursor, right, width);
            p.x + width - 1 == right - 1 && (width == right + 1 ==> p.x == -1)
  {
  }

  /** A viewport of columns 0 to 99 and an editor 100 columns wide, with the cursor at 60. */
  lemma ClampFullWidthExample()
    ensures ClampColorEditorPosition(Point(60, 0), 99, 100) == Point(-1, 0)
  {
  }

  /** clampColorEditorPosition as evidently intended: a right-clamped editor ends on the last column. */
  function IntendedClampColorEditorPosition(cursor: Point, right: int, width: int): (p: Point)
    ensures p.y == cursor.y
  {
    var half := CDiv(width, 2);
    var posX := cursor.x - half;
    var x := if posX < 0 then 0 else if cursor.x + half > right then right - width + 1 else posX;
    Point(x, cursor.y)
  }

  /**
   With the intended clamp, every editor no wider than the viewport, one exactly as wide
   included, lies inside it, and a right-clamped one ends on the last column.
   */
  lemma IntendedClampKeepsEditorInside(cursor: Point, right: int, width: int)
    requires 0 <= width <= right + 1
    ensures var p := IntendedClampColorEditorPosition(cursor, right, width);
            0 <= p.x && p.x + width - 1 <= right
    ensures var p := IntendedClampColorEditorPosition(cursor, right, width);
            0 <= cursor.x - CDiv(width, 2) && cursor.x + CDiv(width, 2) > right ==> p.x + width - 1 == right
  {
    var half := CDiv(width, 2);
    assert half == width / 2;
    assert 2 * half <= width <= 2 * half + 1;
  }

  /** A cursor near the left edge puts the editor at 0, even if it is wider than the viewport. */
  lemma ClampExamples()
    ensures ClampColorEditorPosition(Point(10, 7), 500, 100) == Point(0, 7)
    ensures ClampColorEditorPosition(Point(480, 7), 500, 100) == Point(400, 7)
    ensures ClampColorEditorPosition(Point(200, 7), 500, 101) == Point(150, 7)
  {
  }

  // ---------------------------------------------------------------- settings

  /**
   The handlers onGeneralSettingsChanged runs, as written: one per flag that differs
   between the stored and the incoming settings, each passed the STORED flag.
   */
  function HandlerCalls(stored: GeneralSettings, incoming: GeneralSettings): seq<HandlerCall> {
    (if stored.editorSensitive != incoming.editorSensitive
     then [EditorSensitiveChanged(stored.editorSensitive)] else [])
    + (if stored.insertOnChange != incoming.insertOnChange
       then [InsertOnChangeChanged(stored.insertOnChange)] else [])
  }

  /** The handlers evidently intended: the same ones, each passed the incoming flag. */
  function IntendedHandlerCalls(stored: GeneralSettings, incoming: GeneralSettings): seq<HandlerCall> {
    (if stored.editorSensitive != incoming.editorSensitive
     then [EditorSensitiveChanged(incoming.editorSensitive)] else [])
    + (if stored.insertOnChange != incoming.insertOnChange
       then [InsertOnChangeChanged(incoming.insertOnChange)] else [])
  }

  /** The value a handler call passes. */
  function Argument(call: HandlerCall): bool {
    match call
    case EditorSensitiveChanged(b) => b
    case InsertOnChangeChanged(b) => b
  }

  /** The incoming value of the flag a handler call is about. */
  function IncomingFlag(call: HandlerCall, incoming: GeneralSettings): bool {
    match call
    case EditorSensitiveChanged(_) => incoming.editorSensitive
    case InsertOnChangeChanged(_) => incoming.insertOnChange
  }

  /**
   A handler runs exactly for a flag that changes, and, as written, every handler is
   passed the opposite of the setting the user just chose.
   */
  lemma HandlersGetStaleValue(stored: GeneralSettings, incoming: GeneralSettings)
    ensures (exists b :: EditorSensitiveChanged(b) in HandlerCalls(stored, incoming))
            <==> stored.editorSensitive != incoming.editorSensitive
    ensures (exists b :: InsertOnChangeChanged(b) in HandlerCalls(stored, incoming))
            <==> stored.insertOnChange != incoming.insertOnChange
    ensures forall c :: c in HandlerCalls(stored, incoming) ==> Argument(c) != IncomingFlag(c, incoming)
  {
    var calls := HandlerCalls(stored, incoming);
    if stored.editorSensitive != incoming.editorSensitive {
      assert EditorSensitiveChanged(stored.editorSensitive) in calls;
    }
    if stored.insertOnChange != incoming.insertOnChange {
      assert InsertOnChangeChanged(stored.insertOnChange) in calls;
    }
  }

  /** With the intended calls the same handlers run, each passed the setting the user chose. */
  lemma IntendedHandlersGetNewValue(stored: GeneralSettings, incoming: GeneralSettings)
    ensures |IntendedHandlerCalls(stored, incoming)| == |HandlerCalls(stored, incoming)|
    ensures forall i :: 0 <= i < |HandlerCalls(stored, incoming)| ==>
              IntendedHandlerCalls(stored, incoming)[i].EditorSensitiveChanged?
              == HandlerCalls(stored, incoming)[i].EditorSensitiveChanged?
    ensures forall c :: c in IntendedHandlerCalls(stored, incoming) ==> Argument(c) == IncomingFlag(c, incoming)
  {
  }

  /** The insert-on-change connection count after setInsertOnChange: connecting adds a pair, disconnecting drops all. */
  function ConnectionsAfter(connections: nat, enable: bool): (n: nat)
    ensures enable ==> n == connections + 1
    ensures !enable ==> n == 0
  {
    if enable then connections + 1 else 0
  }

  /** The connection count that matches a setting: one pair when enabled, none when disabled. */
  function ConnectionsFor(insertOnChange: bool): nat {
    if insertOnChange then 1 else 0
  }

  /** The connection count after onGeneralSettingsChanged, as written. */
  function SettingsConnections(connections: nat, stored: GeneralSettings, incoming: GeneralSettings): nat {
    if stored.insertOnChange != incoming.insertOnChange then ConnectionsAfter(connections, stored.insertOnChange)
    else connections
  }

  /** The connection count after the intended onGeneralSettingsChanged. */
  function IntendedSettingsConnections(connections: nat, stored: GeneralSettings, incoming: GeneralSettings): nat {
    if stored.insertOnChange != incoming.insertOnChange then ConnectionsAfter(connections, incoming.insertOnChange)
    else connections
  }

  /**
   As written, toggling insert-on-change inverts it: switching it on disconnects, and
   switching it off connects a pair more.
   */
  lemma InsertOnChangeInverted(stored: GeneralSettings, incoming: GeneralSettings)
    requires stored.insertOnChange != incoming.insertOnChange
    ensures var n := SettingsConnections(ConnectionsFor(stored.insertOnChange), stored, incoming);
            (0 < n <==> !incoming.insertOnChange) && n != ConnectionsFor(incoming.insertOnChange)
  {
  }

  /** The intended handling keeps the connections in step with the setting. */
  lemma IntendedConnectionsFollowSetting(stored: GeneralSettings, incoming: GeneralSettings)
    ensures IntendedSettingsConnections(ConnectionsFor(stored.insertOnChange), stored, incoming)
            == ConnectionsFor(incoming.insertOnChange)
  {
  }

  /** The category a watcher ends with, as written, after the settings change from `stored` to `incoming`. */
  function SettingsCategory(current: ColorCategory, e: Editor, stored: GeneralSettings, incoming: GeneralSettings)
    : ColorCategory
  {
    if stored.editorSensitive != incoming.editorSensitive then EffectiveCategory(stored.editorSensitive, e)
    else current
  }

  /** The category a watcher ends with after the intended handling. */
  function IntendedSettingsCategory(current: ColorCategory, e: Editor, stored: GeneralSettings, incoming: GeneralSettings)
    : ColorCategory
  {
    if stored.editorSensitive != incoming.editorSensitive then EffectiveCategory(incoming.editorSensitive, e)
    else current
  }

  /**
   As written, switching editor sensitivity off leaves a QML editor's watcher in the
   Qml category, and switching it on moves it to Any.
   */
  lemma SensitivityInverted(e: Editor)
    requires e.lastContextId == QmlJsEditorId
    ensures SettingsCategory(QmlCategory, e, GeneralSettings(true, false), GeneralSettings(false, false)) == QmlCategory
    ensures SettingsCategory(AnyCategory, e, GeneralSettings(false, false), GeneralSettings(true, false)) == AnyCategory
    ensures EffectiveCategory(false, e) == AnyCategory && EffectiveCategory(true, e) == QmlCategory
  {
  }

  /** The intended handling leaves every watcher at its editor's effective category. */
  lemma IntendedCategoryFollowsSetting(e: Editor, stored: GeneralSettings, incoming: GeneralSettings)
    ensures IntendedSettingsCategory(EffectiveCategory(stored.editorSensitive, e), e, stored, incoming)
            == EffectiveCategory(incoming.editorSensitive, e)
  {
  }

  /**
   The as-written effects are exactly those of the handler calls: a watcher takes the
   category for the sensitivity its call passes, the connections follow setInsertOnChange
   of the flag its call passes, and without a call nothing changes.
   */
  lemma SettingsFollowHandlerCalls(connections: nat, current: ColorCategory, e: Editor,
                                   stored: GeneralSettings, incoming: GeneralSettings)
    ensures forall b :: EditorSensitiveChanged(b) in HandlerCalls(stored, incoming) ==>
              SettingsCategory(current, e, stored, incoming) == EffectiveCategory(b, e)
    ensures (forall b :: EditorSensitiveChanged(b) !in HandlerCalls(stored, incoming)) ==>
              SettingsCategory(current, e, stored, incoming) == current
    ensures forall b :: InsertOnChangeChanged(b) in HandlerCalls(stored, incoming) ==>
              SettingsConnections(connections, stored, incoming) == ConnectionsAfter(connections, b)
    ensures (forall b :: InsertOnChangeChanged(b) !in HandlerCalls(stored, incoming)) ==>
              SettingsConnections(connections, stored, incoming) == connections
  {
    HandlersGetStaleValue(stored, incoming);
  }

  /** The intended effects are likewise exactly those of the intended handler calls. */
  lemma IntendedSettingsFollowHandlerCalls(connections: nat, current: ColorCategory, e: Editor,
                                           stored: GeneralSettings, incoming: GeneralSettings)
    ensures forall b :: EditorSensitiveChanged(b) in IntendedHandlerCalls(stored, incoming) ==>
              IntendedSettingsCategory(current, e, stored, incoming) == EffectiveCategory(b, e)
    ensures (forall b :: EditorSensitiveChanged(b) !in IntendedHandlerCalls(stored, incoming)) ==>
              IntendedSettingsCategory(current, e, stored, incoming) == current
    ensures forall b :: InsertOnChangeChanged(b) in IntendedHandlerCalls(stored, incoming) ==>
              IntendedSettingsConnections(connections, stored, incoming) == ConnectionsAfter(connections, b)
    ensures (forall b :: InsertOnChangeChanged(b) !in IntendedHandlerCalls(stored, incoming)) ==>
              IntendedSettingsConnections(connections, stored, incoming) == connections
  {
    var calls := IntendedHandlerCalls(stored, incoming);
    if stored.editorSensitive != incoming.editorSensitive {
      assert EditorSensitiveChanged(incoming.editorSensitive) in calls;
    }
    if stored.insertOnChange != incoming.insertOnChange {
      assert InsertOnChangeChanged(incoming.insertOnChange) in calls;
    }
  }

  /** The colour editor's colour after setColor(c): its own colour when the colour class calls the two equal. */
  function ShownColor(current: Color, c: Color): (r: Color)
    ensures SameColor(r, c)
    ensures r == c || r == current
  {
    SameColorIsEquivalence(c, c, c);
    if SameColor(current, c) then current else c
  }

  // ---------------------------------------------------------------- objects

  /** The colour watcher of one text editor, reduced to the category it searches. */
  class ColorWatcher {
    const editor: Editor
    var category: ColorCategory

    constructor(editor: Editor)
      ensures this.editor == editor
    {
      this.editor := editor;
    }

    method SetColorCategory(c: ColorCategory)
      modifies this`category
      ensures category == c
    {
      category := c;
    }
  }

  class Plugin {
    var watchers: map<Editor, ColorWatcher>
    var generalSettings: GeneralSettings
    const colorEditor: CE.ColorEditor
    /** The editor whose viewport is the colour editor's parent widget, if any. */
    var editorParent: Option<Editor>
    var editorPos: Point
    var editorShown: bool
    /** How many colorChanged/outputFormatChanged connection pairs insert-on-change has made. */
    var connections: nat

    /** The watcher objects. */
    function WatcherSet(): set<ColorWatcher>
      reads this
    {
      set e | e in watchers :: watchers[e]
    }

    /** At most one watcher per editor, each a different object, each owned by its editor. */
    predicate WatchersDistinct()
      reads this, WatcherSet()
    {
      (forall e1, e2 :: e1 in watchers && e2 in watchers && e1 != e2 ==> watchers[e1] != watchers[e2])
      && (forall e :: e in watchers ==> watchers[e].editor == e && e.isTextEditor)
    }

    /** Every watcher searches its editor's effective category. */
    predicate WatchersUpToDate()
      reads this, WatcherSet()
    {
      forall e :: e in watchers ==> watchers[e].category == EffectiveCategory(generalSettings.editorSensitive, e)
    }

    /** The colour editor, when shown in an editor, uses that editor's effective category. */
    predicate EditorCategoryMatches()
      reads this, colorEditor
    {
      editorParent.Some? ==>
        editorParent.value in watchers
        && colorEditor.category == EffectiveCategory(generalSettings.editorSensitive, editorParent.value)
    }

    /** The watchers and the colour editor agree with the settings, and the colour editor's widgets agree with it. */
    predicate Valid()
      reads this, WatcherSet(), colorEditor
    {
      WatchersDistinct() && WatchersUpToDate() && EditorCategoryMatches()
      && connections == ConnectionsFor(generalSettings.insertOnChange)
      && colorEditor.Valid()
    }

    /** initialize and extensionsInitialized: the stored settings, a new colour editor, insert-on-change applied. */
    constructor(settings: GeneralSettings, space: ColorSpace)
      ensures Valid()
      ensures watchers == map[] && generalSettings == settings && editorParent == None && !editorShown
      ensures connections == ConnectionsFor(settings.insertOnChange)
      ensures fresh(colorEditor) && colorEditor.Valid()
    {
      watchers := map[];
      generalSettings := settings;
      colorEditor := new CE.ColorEditor(space);
      editorParent := None;
      editorPos := Point(0, 0);
      editorShown := false;
      connections := 0;
      new;
      assert WatcherSet() == {};
      assert WatchersDistinct() && WatchersUpToDate() && EditorCategoryMatches();
      SetInsertOnChange(settings.insertOnChange);
      assert connections == ConnectionsFor(generalSettings.insertOnChange);
      assert colorEditor.Valid();
    }

    /** setInsertOnChange: connect one more pair, or disconnect them all. */
    method SetInsertOnChange(enable: bool)
      modifies this`connections
      ensures connections == ConnectionsAfter(old(connections), enable)
    {
      if enable {
        connections := connections + 1;
      } else {
        connections := 0;
      }
    }

    /** insertOnChangeSettingChanged: forwards to setInsertOnChange. */
    method InsertOnChangeSettingChanged(insertOnChange: bool)
      modifies this`connections
      ensures connections == ConnectionsAfter(old(connections), insertOnChange)
    {
      SetInsertOnChange(insertOnChange);
    }

    /**
     editorSensitiveSettingChanged: every watcher, and the colour editor when it sits in
     that watcher's editor, gets the editor's category under the given sensitivity.
     */
    method EditorSensitiveSettingChanged(isSensitive: bool)
      requires WatchersDistinct()
      modifies WatcherSet(), colorEditor
      ensures forall e :: e in watchers ==> watchers[e].category == EffectiveCategory(isSensitive, e)
      ensures editorParent.Some? && editorParent.value in watchers ==>
                colorEditor.category == EffectiveCategory(isSensitive, editorParent.value)
      ensures editorParent.None? || editorParent.value !in watchers ==> colorEditor.category == old(colorEditor.category)
      ensures colorEditor.color == old(colorEditor.color) && colorEditor.signals == old(colorEditor.signals)
      ensures old(colorEditor.Valid()) ==> colorEditor.Valid()
      ensures WatchersDistinct()
    {
      var todo := watchers.Keys;
      while todo != {}
        invariant todo <= watchers.Keys
        invariant forall e :: e in watchers && e !in todo ==>
                    watchers[e].category == EffectiveCategory(isSensitive, e)
        invariant editorParent.Some? && editorParent.value in watchers && editorParent.value !in todo ==>
                    colorEditor.category == EffectiveCategory(isSensitive, editorParent.value)
        invariant editorParent.None? || editorParent.value !in watchers || editorParent.value in todo ==>
                    colorEditor.category == old(colorEditor.category)
        invariant colorEditor.color == old(colorEditor.color) && colorEditor.signals == old(colorEditor.signals)
        invariant old(colorEditor.Valid()) ==> colorEditor.Valid()
        decreases todo
      {
        var e :| e in todo;
        var newCategory := EffectiveCategory(isSensitive, e);
        watchers[e].SetColorCategory(newCategory);
        if editorParent == Some(e) {
          colorEditor.SetColorCategory(newCategory);
        }
        todo := todo - {e};
      }
    }

    /** The watcher cache of onColorEditTriggered: a text editor seen for the first time gets a new watcher. */
    method AddWatcher(e: Editor)
      requires WatchersDistinct() && e.isTextEditor
      modifies this`watchers
      ensures WatchersDistinct()
      ensures old(Valid()) ==> Valid()
      ensures watchers.Keys == old(watchers.Keys) + {e}
      ensures e in old(watchers) ==> watchers == old(watchers)
      ensures e !in old(watchers) ==>
                fresh(watchers[e]) && forall k :: k in old(watchers) ==> watchers[k] == old(watchers)[k]
      ensures e !in old(watchers) ==> watchers[e].category == EffectiveCategory(generalSettings.editorSensitive, e)
    {
      if e !in watchers {
        var watcher := new ColorWatcher(e);
        watcher.SetColorCategory(EffectiveCategory(generalSettings.editorSensitive, e));
        watchers := watchers[e := watcher];
      }
    }

    /**
     The colour editor part of onColorEditTriggered: it takes the category, the colour
     found (and its format) or re-emits its own, and pops up clamped in the editor's viewport.
     */
    method ShowColorEditor(e: Editor, category: ColorCategory, found: ColorExpr, right: int, width: int)
      modifies this`editorParent, this`editorPos, this`editorShown, colorEditor
      ensures colorEditor.category == category
      ensures old(colorEditor.Valid()) ==> colorEditor.Valid()
      ensures found.value.Some? ==>
                colorEditor.outputFormat == found.format && SameColor(colorEditor.color, found.value.value)
                && colorEditor.color == ShownColor(old(colorEditor.color), found.value.value)
                && colorEditor.signals
                   == old(colorEditor.signals)
                      + (if CE.CategoryFormat(old(colorEditor.category), old(colorEditor.outputFormat), category) == found.format
                         then [] else [CE.OutputFormatChanged(found.format)])
                      + (if SameColor(old(colorEditor.color), found.value.value)
                         then [] else [CE.ColorChanged(found.value.value)])
      ensures found.value.None? ==>
                colorEditor.color == old(colorEditor.color) && colorEditor.signals == old(colorEditor.signals)
                && colorEditor.outputFormat
                   == CE.CategoryFormat(old(colorEditor.category), old(colorEditor.outputFormat), category)
      ensures editorParent == Some(e) && editorShown
      ensures editorPos == ClampColorEditorPosition(found.pos, right, width)
    {
      colorEditor.SetColorCategory(category);
      if found.value.Some? {
        colorEditor.SetOutputFormat(found.format);
        colorEditor.SetColor(found.value.value);
      } else {
        SameColorIsEquivalence(colorEditor.color, colorEditor.color, colorEditor.color);
        colorEditor.SetColor(colorEditor.color);
      }
      editorParent := Some(e);
      editorPos := ClampColorEditorPosition(found.pos, right, width);
      editorShown := true;
    }

    /**
     onColorEditTriggered, for the current editor (if any) and what its watcher finds:
     a text editor gets a watcher on first use and keeps it; the colour editor takes the
     effective category, the colour found (and its format), and pops up clamped to the
     viewport. Anything but a text editor is ignored.
     */
    method OnColorEditTriggered(current: Option<Editor>, found: ColorExpr, right: int, width: int)
      requires WatchersDistinct()
      modifies this`watchers, this`editorParent, this`editorPos, this`editorShown, colorEditor
      ensures WatchersDistinct()
      ensures old(Valid()) ==> Valid()
      ensures old(colorEditor.Valid()) ==> colorEditor.Valid()
      ensures current.None? || !current.value.isTextEditor ==>
                watchers == old(watchers) && editorParent == old(editorParent) && editorShown == old(editorShown)
                && unchanged(colorEditor)
      ensures current.Some? && current.value.isTextEditor ==>
                var e := current.value;
                watchers.Keys == old(watchers.Keys) + {e}
                && (e in old(watchers) ==> watchers == old(watchers))
                && (e !in old(watchers) ==>
                      fresh(watchers[e]) && (forall k :: k in old(watchers) ==> watchers[k] == old(watchers)[k])
                      && watchers[e].category == EffectiveCategory(generalSettings.editorSensitive, e))
                && editorParent == Some(e) && editorShown
                && editorPos == ClampColorEditorPosition(found.pos, right, width)
      ensures current.Some? && current.value.isTextEditor ==>
                var category := EffectiveCategory(generalSettings.editorSensitive, current.value);
                var format := CE.CategoryFormat(old(colorEditor.category), old(colorEditor.outputFormat), category);
                colorEditor.category == category
                && (found.value.Some? ==>
                      colorEditor.outputFormat == found.format && SameColor(colorEditor.color, found.value.value)
                      && colorEditor.color == ShownColor(old(colorEditor.color), found.value.value)
                      && colorEditor.signals
                         == old(colorEditor.signals)
                            + (if format == found.format then [] else [CE.OutputFormatChanged(found.format)])
                            + (if SameColor(old(colorEditor.color), found.value.value)
                               then [] else [CE.ColorChanged(found.value.value)]))
                && (found.value.None? ==>
                      colorEditor.color == old(colorEditor.color) && colorEditor.signals == old(colorEditor.signals)
                      && colorEditor.outputFormat == format)
    {
      if current.None? || !current.value.isTextEditor {
        return;
      }
      var e := current.value;
      ghost var wasValid := Valid();
      AddWatcher(e);
      assert wasValid ==> Valid();
      ShowColorEditor(e, EffectiveCategory(generalSettings.editorSensitive, e), found, right, width);
    }

    /**
     onGeneralSettingsChanged as written: each handler whose flag changes runs with the
     stored (previous) flag, then the incoming settings are stored.
     */
    method OnGeneralSettingsChanged(gs: GeneralSettings)
      requires WatchersDistinct()
      modifies this`generalSettings, this`connections, WatcherSet(), colorEditor
      ensures WatchersDistinct()
      ensures generalSettings == gs
      ensures connections == SettingsConnections(old(connections), old(generalSettings), gs)
      ensures forall e :: e in watchers ==>
                watchers[e].category == SettingsCategory(old(watchers[e].category), e, old(generalSettings), gs)
      ensures editorParent.Some? && editorParent.value in watchers ==>
                colorEditor.category
                == SettingsCategory(old(colorEditor.category), editorParent.value, old(generalSettings), gs)
      ensures editorParent.None? || editorParent.value !in watchers ==> colorEditor.category == old(colorEditor.category)
      ensures colorEditor.color == old(colorEditor.color) && colorEditor.signals == old(colorEditor.signals)
      ensures old(colorEditor.Valid()) ==> colorEditor.Valid()
    {
      var editorSensitiveOldVal := gs.editorSensitive;
      var editorSensitiveNewVal := generalSettings.editorSensitive;
      var insertOnChangeOldVal := gs.insertOnChange;
      var insertOnChangeNewVal := generalSettings.insertOnChange;
      if editorSensitiveNewVal != editorSensitiveOldVal {
        EditorSensitiveSettingChanged(editorSensitiveNewVal);
      }
      if insertOnChangeNewVal != insertOnChangeOldVal {
        InsertOnChangeSettingChanged(insertOnChangeNewVal);
      }
      generalSettings := gs;
    }

    /** onGeneralSettingsChanged as evidently intended: the handlers get the incoming flags, which keeps the plugin valid. */
    method OnGeneralSettingsChangedIntended(gs: GeneralSettings)
      requires Valid()
      modifies this`generalSettings, this`connections, WatcherSet(), colorEditor
      ensures Valid()
      ensures generalSettings == gs
      ensures connections == IntendedSettingsConnections(old(connections), old(generalSettings), gs)
      ensures forall e :: e in watchers ==>
                watchers[e].category == IntendedSettingsCategory(old(watchers[e].category), e, old(generalSettings), gs)
      ensures editorParent.Some? ==>
                colorEditor.category
                == IntendedSettingsCategory(old(colorEditor.category), editorParent.value, old(generalSettings), gs)
      ensures colorEditor.color == old(colorEditor.color) && colorEditor.signals == old(colorEditor.signals)
    {
      if generalSettings.editorSensitive != gs.editorSensitive {
        EditorSensitiveSettingChanged(gs.editorSensitive);
      }
      if generalSettings.insertOnChange != gs.insertOnChange {
        InsertOnChangeSettingChanged(gs.insertOnChange);
      }
      generalSettings := gs;
    }

    /** onEditorAboutToClose: whichever editor closes, the colour editor loses its parent. */
    method OnEditorAboutToClose()
      modifies this`editorParent
      ensures editorParent == None
    {
      editorParent := None;
    }
  }
}

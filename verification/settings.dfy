/** The Settings application of src/app/settings.cc: its keyboard and mouse handling and the save
    button position it records when drawn. Saving and applying (IndexedDB and the desktop) are
    an effect the handlers return; the drawing itself is not modelled. */
module Settings {
  import opened Ints
  import opened Wrappers

  const CATEGORY_DESKTOP: int := 0
  const CATEGORY_WINDOWS: int := 1
  const CATEGORY_IFRAMES: int := 2
  const CATEGORY_COUNT: int := 3

  /** Colours are VGA palette indices 0..0x3f. */
  const MAX_COLOUR: nat := 0x3f
  /** The proxy URL lives in a 256-byte NUL-terminated buffer. */
  const MAX_PROXY: nat := 255

  const TAB_PITCH: int := 60
  const TAB_WIDTH: int := 58
  const TAB_HEIGHT: int := 12
  const SAVE_WIDTH: int := 50
  const SAVE_HEIGHT: int := 12

  const LEFT_BUTTON: uint8 := 1

  datatype Settings = Settings(
    category: int,
    item: int,
    desktopBg: uint8,
    windowBar: uint8,
    iframeMode: uint8,
    proxy: seq<int8>,
    saveButtonX: int,
    saveButtonY: int)

  /** What a handler asks of the outside world: nothing, or SaveSettings then ApplySettings. */
  datatype Effect = NoEffect | SaveAndApply

  /** The constructor's defaults, before LoadSettings overrides any of them. */
  function Defaults(): (s: Settings)
    ensures s.category == CATEGORY_DESKTOP && s.proxy == [] && s.iframeMode == 1
    ensures s.desktopBg <= MAX_COLOUR && s.windowBar <= MAX_COLOUR
  {
    Settings(0, 0, 0x11, 0x19, 1, [], 0, 0)
  }

  // ---------------------------------------------------------------------------
  // Keyboard

  predicate IsIncrease(ch: int8) { ch == '+' as int8 || ch == '=' as int8 }
  predicate IsDecrease(ch: int8) { ch == '-' as int8 || ch == '_' as int8 }
  predicate IsErase(ch: int8) { ch == 8 || ch == 127 }
  predicate IsEnter(ch: int8) { ch == 13 || ch == 10 }

  /** A key typed into the proxy field: the printable range 32..126, of which the space is
      taken first by the display-mode toggle. */
  predicate IsTyped(ch: int8) { 32 <= ch < 127 && ch != ' ' as int8 }

  /** '+' or '=' raises a colour below 0x3f by one, '-' or '_' lowers a colour above 0. */
  function AdjustColour(colour: uint8, ch: int8): (r: uint8)
    ensures IsIncrease(ch) ==> r == if colour < MAX_COLOUR then colour + 1 else colour
    ensures IsDecrease(ch) ==> r == if colour > 0 then colour - 1 else colour
    ensures !IsIncrease(ch) && !IsDecrease(ch) ==> r == colour
  {
    if IsIncrease(ch) then (if colour < MAX_COLOUR then colour + 1 else colour)
    else if IsDecrease(ch) then (if colour > 0 then colour - 1 else colour)
    else colour
  }

  /** The Iframes category's keys on the proxy text: append while there is room, erase the last
      character if there is one. */
  function EditProxy(proxy: seq<int8>, ch: int8): (r: seq<int8>)
    ensures IsTyped(ch) && |proxy| < MAX_PROXY ==> r == proxy + [ch]
    ensures IsErase(ch) && proxy != [] ==> r == proxy[..|proxy| - 1]
    ensures !(IsTyped(ch) && |proxy| < MAX_PROXY) && !(IsErase(ch) && proxy != []) ==> r == proxy
  {
    if IsTyped(ch) then (if |proxy| < MAX_PROXY then proxy + [ch] else proxy)
    else if IsErase(ch) then (if |proxy| > 0 then proxy[..|proxy| - 1] else proxy)
    else proxy
  }

  /** Settings::OnKeyDown. Only the setting of the selected category can change; Enter in the
      Iframes category only saves and applies. */
  function OnKeyDown(s: Settings, ch: int8): (r: (Settings, Effect))
    ensures r.0.category == s.category && r.0.item == s.item
    ensures r.0.saveButtonX == s.saveButtonX && r.0.saveButtonY == s.saveButtonY
    ensures s.category != CATEGORY_DESKTOP ==> r.0.desktopBg == s.desktopBg
    ensures s.category != CATEGORY_WINDOWS ==> r.0.windowBar == s.windowBar
    ensures s.category != CATEGORY_IFRAMES ==> r.0.iframeMode == s.iframeMode && r.0.proxy == s.proxy
    ensures r.1 == SaveAndApply <==> s.category == CATEGORY_IFRAMES && IsEnter(ch)
    ensures r.1 == SaveAndApply ==> r.0 == s
  {
    if s.category == CATEGORY_DESKTOP then (s.(desktopBg := AdjustColour(s.desktopBg, ch)), NoEffect)
    else if s.category == CATEGORY_WINDOWS then (s.(windowBar := AdjustColour(s.windowBar, ch)), NoEffect)
    else if s.category == CATEGORY_IFRAMES then
      if ch == ' ' as int8 then (s.(iframeMode := if s.iframeMode == 0 then 1 else 0), NoEffect)
      else if IsTyped(ch) || IsErase(ch) then (s.(proxy := EditProxy(s.proxy, ch)), NoEffect)
      else if IsEnter(ch) then (s, SaveAndApply)
      else (s, NoEffect)
    else (s, NoEffect)
  }

  /** The bounds the settings are kept in: colours within the palette, the proxy within its buffer. */
  predicate InRange(s: Settings) {
    s.desktopBg <= MAX_COLOUR && s.windowBar <= MAX_COLOUR && |s.proxy| <= MAX_PROXY
  }

  /** No key takes a setting out of range. */
  lemma KeysKeepRange(s: Settings, ch: int8)
    requires InRange(s)
    ensures InRange(OnKeyDown(s, ch).0)
  {
  }

  /** Space in the Iframes category flips between direct overlay (1) and the other mode (0):
      any mode other than 0 becomes 0, and two presses from 0 or 1 come back. */
  lemma SpaceToggles(s: Settings)
    requires s.category == CATEGORY_IFRAMES
    ensures OnKeyDown(s, ' ' as int8).0.iframeMode == if s.iframeMode == 0 then 1 else 0
    ensures s.iframeMode <= 1 ==> OnKeyDown(OnKeyDown(s, ' ' as int8).0, ' ' as int8).0 == s
  {
  }

  /** Typing a character into a proxy with room and erasing it gives the proxy back. */
  lemma TypeThenErase(s: Settings, ch: int8)
    requires s.category == CATEGORY_IFRAMES && IsTyped(ch) && |s.proxy| < MAX_PROXY
    ensures OnKeyDown(OnKeyDown(s, ch).0, 8).0 == s
  {
    assert (s.proxy + [ch])[..|s.proxy|] == s.proxy;
  }

  /** Raising then lowering a colour strictly inside the palette gives it back. */
  lemma RaiseThenLower(s: Settings)
    requires s.category == CATEGORY_DESKTOP && s.desktopBg < MAX_COLOUR
    ensures OnKeyDown(OnKeyDown(s, '+' as int8).0, '-' as int8).0 == s
  {
  }

  // ---------------------------------------------------------------------------
  // Mouse and the save button

  /** The height of the selected category's controls, above the save button. */
  function CategoryHeight(category: int): (h: int)
    ensures category == CATEGORY_DESKTOP || category == CATEGORY_WINDOWS ==> h == 27
    ensures category == CATEGORY_IFRAMES ==> h == 42
    ensures !(0 <= category < CATEGORY_COUNT) ==> h == 0
  {
    if category == CATEGORY_DESKTOP || category == CATEGORY_WINDOWS then 27
    else if category == CATEGORY_IFRAMES then 42
    else 0
  }

  /** What drawing the settings records: the save button at the content area's left edge, below
      the tabs (15), the category's controls and a gap of 10. */
  function RecordSaveButton(s: Settings): (r: Settings)
    ensures r.saveButtonX == 0 && r.saveButtonY == 25 + CategoryHeight(s.category)
    ensures r.saveButtonY >= 25 && r == s.(saveButtonX := r.saveButtonX, saveButtonY := r.saveButtonY)
  {
    s.(saveButtonX := 0, saveButtonY := 15 + CategoryHeight(s.category) + 10)
  }

  /** The tab under a point of the content area, if any: tab `i` covers [60i, 60i+58) x [0, 12). */
  function TabAt(relX: int, relY: int): (r: Option<int>)
    ensures r.Some? ==> (0 <= r.value < CATEGORY_COUNT
      && TAB_PITCH * r.value <= relX < TAB_PITCH * r.value + TAB_WIDTH && 0 <= relY < TAB_HEIGHT)
    ensures r.None? ==> forall i :: 0 <= i < CATEGORY_COUNT ==>
      (!(TAB_PITCH * i <= relX < TAB_PITCH * i + TAB_WIDTH && 0 <= relY < TAB_HEIGHT))
  {
    if !(0 <= relY < TAB_HEIGHT) then None
    else if 0 <= relX < TAB_WIDTH then Some(0)
    else if TAB_PITCH <= relX < TAB_PITCH + TAB_WIDTH then Some(1)
    else if 2 * TAB_PITCH <= relX < 2 * TAB_PITCH + TAB_WIDTH then Some(2)
    else None
  }

  predicate InSaveButton(s: Settings, relX: int, relY: int) {
    s.saveButtonX <= relX < s.saveButtonX + SAVE_WIDTH && s.saveButtonY <= relY < s.saveButtonY + SAVE_HEIGHT
  }

  /** Settings::OnMouseDown for a click at (x, y) in a window whose widget is at (wx, wy): only
      the left button counts; a tab selects its category and resets the selected item, otherwise
      the save button saves and applies. */
  function OnMouseDown(s: Settings, x: int32, y: int32, button: uint8, wx: int32, wy: int32): (r: (Settings, Effect))
    ensures button != LEFT_BUTTON ==> r == (s, NoEffect)
    ensures r.0 != s ==> r.0 == s.(category := r.0.category, item := 0) && r.1 == NoEffect
    ensures r.1 == SaveAndApply ==> r.0 == s
  {
    var relX := x - wx - 1;
    var relY := y - wy - 1;
    if button != LEFT_BUTTON then (s, NoEffect)
    else match TabAt(relX, relY)
      case Some(i) => (s.(category := i, item := 0), NoEffect)
      case None => if InSaveButton(s, relX, relY) then (s, SaveAndApply) else (s, NoEffect)
  }

  /** A left click lands on tab `i` exactly when it is inside that tab's box; it then selects
      category `i` with the first item. */
  lemma ClickSelectsTab(s: Settings, x: int32, y: int32, wx: int32, wy: int32, i: int)
    requires 0 <= i < CATEGORY_COUNT
    ensures var relX, relY := x - wx - 1, y - wy - 1;
      var (r, e) := OnMouseDown(s, x, y, LEFT_BUTTON, wx, wy);
      (TAB_PITCH * i <= relX < TAB_PITCH * i + TAB_WIDTH && 0 <= relY < TAB_HEIGHT)
      <==> (r.category == i && r.item == 0 && e == NoEffect && TabAt(relX, relY) == Some(i))
  {
  }

  /** Once drawn, the save button lies below the tab row, so the two targets never overlap and
      a left click in the button always saves. */
  lemma SaveButtonClear(s: Settings, x: int32, y: int32, wx: int32, wy: int32)
    requires InSaveButton(RecordSaveButton(s), x - wx - 1, y - wy - 1)
    ensures OnMouseDown(RecordSaveButton(s), x, y, LEFT_BUTTON, wx, wy) == (RecordSaveButton(s), SaveAndApply)
  {
  }
}

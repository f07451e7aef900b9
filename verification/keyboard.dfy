/** The web keyboard driver (src/drivers/keyboard_web.cc): the translation of a browser key name
    into a PS/2 scan code, and the modifier flags JavaScript pushes into the registered handler.
    A C string is a `seq<char>` without its terminating NUL; a null pointer is `None`. */
module Keyboard {
  import opened Ints
  import opened Wrappers

  const ENTER: uint8 := 0x1c
  const BACKSPACE: uint8 := 0x0e
  const TAB: uint8 := 0x0f
  const ESCAPE: uint8 := 0x01
  const SPACE: uint8 := 0x39
  const ARROW_LEFT: uint8 := 0x4b
  const ARROW_UP: uint8 := 0x48
  const ARROW_DOWN: uint8 := 0x50
  const ARROW_RIGHT: uint8 := 0x4d
  const META: uint8 := 0x5b

  /** The code of the first letter; a letter's code is this plus its place in the alphabet. */
  const LETTER_BASE: uint8 := 0x10
  /** The code of '1'; '1'..'9' follow on. */
  const DIGIT_BASE: uint8 := 0x02
  const ZERO: uint8 := 0x0b

  /** The browser key names with a fixed code, in the order the code compares them. */
  function NamedCode(key: seq<char>): (r: Option<uint8>)
  {
    if key == "Enter" then Some(ENTER)
    else if key == "Backspace" then Some(BACKSPACE)
    else if key == "Tab" then Some(TAB)
    else if key == "Escape" then Some(ESCAPE)
    else if key == "Space" then Some(SPACE)
    else if key == "ArrowLeft" then Some(ARROW_LEFT)
    else if key == "ArrowUp" then Some(ARROW_UP)
    else if key == "ArrowDown" then Some(ARROW_DOWN)
    else if key == "ArrowRight" then Some(ARROW_RIGHT)
    else if key == "Meta" then Some(META)
    else None
  }

  predicate IsLower(c: char) { 'a' <= c <= 'z' }
  predicate IsUpper(c: char) { 'A' <= c <= 'Z' }

  /** jsKeyToScanCode: named keys, then one-letter keys of either case, then one-digit keys
      '1'..'9', then any key starting with '0'; everything else, and a null key, is 0. */
  function ScanCode(key: Option<seq<char>>): (r: uint8)
    ensures key.None? ==> r == 0
  {
    match key
    case None => 0
    case Some(k) =>
      if NamedCode(k).Some? then NamedCode(k).value
      else if |k| == 1 && IsLower(k[0]) then LETTER_BASE + (k[0] - 'a') as int
      else if |k| == 1 && IsUpper(k[0]) then LETTER_BASE + (k[0] - 'A') as int
      else if |k| == 1 && '1' <= k[0] <= '9' then DIGIT_BASE + (k[0] - '1') as int
      else if |k| > 0 && k[0] == '0' then ZERO
      else 0
  }

  /** The keys the table knows, stated without reference to the order of the tests. */
  predicate Recognised(k: seq<char>) {
    k in {"Enter", "Backspace", "Tab", "Escape", "Space", "ArrowLeft", "ArrowUp", "ArrowDown", "ArrowRight", "Meta"}
    || (|k| == 1 && (IsLower(k[0]) || IsUpper(k[0]) || '1' <= k[0] <= '9'))
    || (|k| > 0 && k[0] == '0')
  }

  /** A key gets a non-zero code exactly when it is recognised; a null key gets 0. */
  lemma ZeroIffUnrecognised(key: Option<seq<char>>)
    ensures ScanCode(key) != 0 <==> key.Some? && Recognised(key.value)
  {
  }

  /** The named keys get their fixed codes. */
  lemma NamedKeys()
    ensures ScanCode(Some("Enter")) == 0x1c && ScanCode(Some("Backspace")) == 0x0e
    ensures ScanCode(Some("Tab")) == 0x0f && ScanCode(Some("Escape")) == 0x01
    ensures ScanCode(Some("Space")) == 0x39 && ScanCode(Some("Meta")) == 0x5b
    ensures ScanCode(Some("ArrowLeft")) == 0x4b && ScanCode(Some("ArrowUp")) == 0x48
    ensures ScanCode(Some("ArrowDown")) == 0x50 && ScanCode(Some("ArrowRight")) == 0x4d
  {
  }

  /** A letter's code is 0x10 plus its place in the alphabet, whatever its case, so two letters
      share a code exactly when they are the same letter up to case. */
  lemma LettersIgnoreCase(c: char, d: char)
    requires IsLower(c) && IsLower(d)
    ensures ScanCode(Some([c])) == LETTER_BASE + (c - 'a') as int
    ensures ScanCode(Some([c - 'a' + 'A'])) == ScanCode(Some([c]))
    ensures ScanCode(Some([c])) == ScanCode(Some([d])) <==> c == d
  {
    assert NamedCode([c]).None?;
    assert NamedCode([c - 'a' + 'A']).None?;
    assert NamedCode([d]).None?;
  }

  /** '1'..'9' take the codes 0x02..0x0a in order, and a key starting with '0' is 0x0b whatever
      follows. */
  lemma DigitCodes(c: char, rest: seq<char>)
    requires '1' <= c <= '9'
    ensures ScanCode(Some([c])) == DIGIT_BASE + (c - '1') as int
    ensures ScanCode(Some(['0'] + rest)) == ZERO
  {
    assert NamedCode([c]).None?;
    assert NamedCode(['0'] + rest).None? by {
      assert (['0'] + rest)[0] == '0';
    }
  }

  /** The letter codes overlap the named keys' codes in one place: 'm' (and 'M') get Enter's
      code, and no other letter shares a code with a named key. */
  lemma LetterClashesWithNamedKey(c: char, k: seq<char>)
    requires IsLower(c) && NamedCode(k).Some?
    ensures ScanCode(Some([c])) == ScanCode(Some(k)) <==> c == 'm' && k == "Enter"
    ensures ScanCode(Some([c - 'a' + 'A'])) == ScanCode(Some(k)) <==> c == 'm' && k == "Enter"
  {
    assert NamedCode([c]).None?;
    assert NamedCode([c - 'a' + 'A']).None?;
  }

  // ---------------------------------------------------------------------------
  // Modifiers

  /** The modifier flags of the registered keyboard event handler. */
  datatype Modifiers = Modifiers(shift: bool, ctrl: bool, alt: bool, caps: bool)

  /** setKeyboardModifiers: with no handler registered nothing happens; otherwise every flag is
      set to whether its argument is non-zero. */
  function SetModifiers(handler: Option<Modifiers>, shift: uint8, ctrl: uint8, alt: uint8, caps: uint8): (r: Option<Modifiers>)
    ensures handler.None? <==> r.None?
    ensures r.Some? ==> (r.value.shift <==> shift != 0) && (r.value.ctrl <==> ctrl != 0)
    ensures r.Some? ==> (r.value.alt <==> alt != 0) && (r.value.caps <==> caps != 0)
  {
    match handler
    case None => None
    case Some(_) => Some(Modifiers(shift != 0, ctrl != 0, alt != 0, caps != 0))
  }

  /** The flags afterwards do not depend on the flags before, so a second identical call changes
      nothing, and only the zero-ness of each argument matters. */
  lemma SetModifiersForgets(h1: Modifiers, h2: Modifiers, shift: uint8, ctrl: uint8, alt: uint8, caps: uint8)
    ensures SetModifiers(Some(h1), shift, ctrl, alt, caps) == SetModifiers(Some(h2), shift, ctrl, alt, caps)
    ensures var once := SetModifiers(Some(h1), shift, ctrl, alt, caps);
      SetModifiers(once, shift, ctrl, alt, caps) == once
  {
  }
}

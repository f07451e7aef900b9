/** The text buffer of the Journal editor in src/app/file_edit.cc: one block of OFS_BLOCK_SIZE
    bytes (`lba`, its length here), the length of the text in it (`index`) and the cursor. Only
    Journal::OnKeyDown's editing is modelled, not the redrawing around it. */
module Journal {
  import opened Ints
  import opened Wrappers

  const BACKSPACE: uint8 := 0x08
  const NEWLINE: uint8 := 0x0A
  /** The editor's arrow keys, the bytes of the chars '\xfc' to '\xff'. */
  const KEY_LEFT: uint8 := 0xFC
  const KEY_UP: uint8 := 0xFD
  const KEY_DOWN: uint8 := 0xFE
  const KEY_RIGHT: uint8 := 0xFF

  datatype Journal = Journal(lba: seq<uint8>, index: nat, cursor: nat)

  /** The cursor sits inside the text, and the text inside the block. */
  predicate Valid(j: Journal) {
    j.cursor <= j.index <= |j.lba|
  }

  /** The text being edited. */
  function Text(j: Journal): seq<uint8>
    requires j.index <= |j.lba|
  {
    j.lba[..j.index]
  }

  /** A fresh editor: a zeroed block, empty text, cursor at the start. */
  function NewJournal(blockSize: nat): (j: Journal)
    ensures Valid(j) && Text(j) == [] && |j.lba| == blockSize
    ensures forall k :: 0 <= k < blockSize ==> j.lba[k] == 0
  {
    Journal(seq(blockSize, _ => 0), 0, 0)
  }

  predicate IsNavigation(key: uint8) {
    key == KEY_LEFT || key == KEY_UP || key == KEY_DOWN || key == KEY_RIGHT
  }

  /** Every key but the backspace and the four arrows is inserted as it is. */
  predicate IsInsertion(key: uint8) {
    key != BACKSPACE && !IsNavigation(key)
  }

  // ---------------------------------------------------------------------------
  // Cursor movement

  /** The up key's loop: back from `c` to a newline or the start of the block. A position past
      the block (a cursor left there by ReadInput) reads as no newline. */
  function ScanBack(lba: seq<uint8>, c: nat): (p: nat)
    ensures p <= c && (p == 0 || (p < |lba| && lba[p] == NEWLINE))
    ensures forall k :: p < k <= c && k < |lba| ==> lba[k] != NEWLINE
  {
    if c == 0 || (c < |lba| && lba[c] == NEWLINE) then c else ScanBack(lba, c - 1)
  }

  /** The down key's loop: forward from `c` to a newline or the end of the text; from past the
      text it does not move. */
  function ScanForward(lba: seq<uint8>, c: nat, index: nat): (p: nat)
    requires index < |lba|
    ensures c <= p && (c <= index ==> p <= index)
    ensures p < index ==> lba[p] == NEWLINE
    ensures c > index ==> p == c
    ensures forall k :: c <= k < p ==> lba[k] != NEWLINE
    decreases index - c
  {
    if c >= index || lba[c] == NEWLINE then c else ScanForward(lba, c + 1, index)
  }

  /** The new cursor for an arrow key; called only with room left in the block. */
  function MoveCursor(j: Journal, key: uint8): (c: nat)
    requires j.index < |j.lba| && IsNavigation(key)
    ensures j.cursor <= j.index ==> c <= j.index
    ensures key == KEY_LEFT ==> c == if j.cursor > 0 then j.cursor - 1 else 0
    ensures key == KEY_RIGHT ==> c == if j.cursor < j.index then j.cursor + 1 else j.cursor
    ensures key == KEY_UP ==> c <= j.cursor
    ensures key == KEY_DOWN ==> c >= j.cursor
  {
    if key == KEY_LEFT then (if j.cursor > 0 then j.cursor - 1 else 0)
    else if key == KEY_UP then
      var p := ScanBack(j.lba, j.cursor);
      if p > 0 then p - 1 else 0
    else if key == KEY_DOWN then
      var p := ScanForward(j.lba, j.cursor, j.index);
      if p < j.index then p + 1 else p
    else if j.cursor < j.index then j.cursor + 1 else j.cursor
  }

  // ---------------------------------------------------------------------------
  // Editing the block

  /** The backspace loop: the bytes from the cursor up to and including `index` move one to the
      left, over the byte before the cursor; the byte at `index` stays. */
  function ShiftLeft(lba: seq<uint8>, cursor: nat, index: nat): (r: seq<uint8>)
    requires 0 < cursor <= index < |lba|
    ensures |r| == |lba|
    ensures forall k :: 0 <= k < cursor - 1 ==> r[k] == lba[k]
    ensures forall k :: cursor - 1 <= k < index ==> r[k] == lba[k + 1]
    ensures forall k :: index <= k < |lba| ==> r[k] == lba[k]
  {
    lba[..cursor - 1] + lba[cursor..index + 1] + lba[index..]
  }

  /** The insertion loop: the bytes from the cursor up to `index` move one to the right; the byte
      at the cursor stays (it is overwritten next). */
  function ShiftRight(lba: seq<uint8>, cursor: nat, index: nat): (r: seq<uint8>)
    requires cursor <= index < |lba|
    ensures |r| == |lba|
    ensures forall k :: 0 <= k <= cursor ==> r[k] == lba[k]
    ensures forall k :: cursor < k <= index ==> r[k] == lba[k - 1]
    ensures forall k :: index < k < |lba| ==> r[k] == lba[k]
  {
    lba[..cursor + 1] + lba[cursor..index] + lba[index + 1..]
  }

  /** Backspace: with text before the cursor, the byte before the cursor is removed, both counts
      drop by one and the byte after the text is zeroed; otherwise nothing happens. */
  function Backspace(j: Journal): (r: Journal)
    requires j.index < |j.lba|
    ensures |r.lba| == |j.lba|
  {
    if j.index > 0 && j.cursor > 0 then
      var lba := if j.cursor < j.index then ShiftLeft(j.lba, j.cursor, j.index) else j.lba;
      Journal(lba[j.index - 1 := 0], j.index - 1, j.cursor - 1)
    else j
  }

  /** An inserted key as written: before shifting, the byte at `index` is copied one further
      right, a write one past the block when the text fills all but its last byte; and the key
      itself goes to the cursor, past the block when ReadInput left the cursor there. Such a
      write is `None`. */
  function InsertAsWritten(j: Journal, ch: uint8): (r: Option<Journal>)
    requires j.index < |j.lba|
    ensures r.None? <==> (j.cursor < j.index && j.index + 1 == |j.lba|) || j.cursor >= |j.lba|
  {
    if (j.cursor < j.index && j.index + 1 >= |j.lba|) || j.cursor >= |j.lba| then None
    else
      var lba := if j.cursor < j.index then ShiftRight(j.lba[j.index + 1 := j.lba[j.index]], j.cursor, j.index) else j.lba;
      Some(Journal(lba[j.cursor := ch], j.index + 1, j.cursor + 1))
  }

  /** An inserted key, with the copy past the text and the key itself written only when they
      land inside the block. */
  function Insert(j: Journal, ch: uint8): (r: Journal)
    requires j.index < |j.lba|
    ensures |r.lba| == |j.lba| && r.index == j.index + 1 && r.cursor == j.cursor + 1
    ensures j.cursor < |j.lba| ==> r.lba[j.cursor] == ch
    ensures j.cursor >= j.index ==> forall k :: 0 <= k < |j.lba| && k != j.cursor ==> r.lba[k] == j.lba[k]
  {
    var lba := if j.cursor < j.index && j.index + 1 < |j.lba| then j.lba[j.index + 1 := j.lba[j.index]] else j.lba;
    var lba := if j.cursor < j.index then ShiftRight(lba, j.cursor, j.index) else lba;
    Journal(if j.cursor < |lba| then lba[j.cursor := ch] else lba, j.index + 1, j.cursor + 1)
  }

  /** OnKeyDown as written: `None` is an access outside the block, either the insertion's write
      into a block with one byte left, or a read or write at a cursor that ReadInput left past the
      block. A full block ignores every key. */
  function OnKeyDownAsWritten(j: Journal, key: uint8): (r: Option<Journal>)
    ensures r.None? <==> (
      j.index < |j.lba| &&
      ((IsInsertion(key) && ((j.cursor < j.index && j.index + 1 == |j.lba|) || |j.lba| <= j.cursor))
       || (key == KEY_UP && 0 < j.cursor && |j.lba| <= j.cursor)))
  {
    if j.index >= |j.lba| then Some(j)
    else if key == BACKSPACE then Some(Backspace(j))
    else if key == KEY_UP && 0 < j.cursor && |j.lba| <= j.cursor then None
    else if IsNavigation(key) then Some(j.(cursor := MoveCursor(j, key)))
    else InsertAsWritten(j, key)
  }

  /** OnKeyDown with the accesses outside the block left out. Every key keeps the cursor inside the
      text and the text inside the block. */
  function OnKeyDown(j: Journal, key: uint8): (r: Journal)
    ensures j.index >= |j.lba| ==> r == j
    ensures |r.lba| == |j.lba|
    ensures Valid(j) ==> Valid(r)
  {
    if j.index >= |j.lba| then j
    else if key == BACKSPACE then Backspace(j)
    else if IsNavigation(key) then j.(cursor := MoveCursor(j, key))
    else Insert(j, key)
  }

  // ---------------------------------------------------------------------------
  // Properties

  /** Inserting puts the key at the cursor and moves the cursor past it; the rest of the text
      keeps its order. */
  lemma InsertEditsText(j: Journal, ch: uint8)
    requires j.cursor <= j.index < |j.lba|
    ensures Text(Insert(j, ch)) == Text(j)[..j.cursor] + [ch] + Text(j)[j.cursor..]
  {
    var r := Insert(j, ch);
    var expected := Text(j)[..j.cursor] + [ch] + Text(j)[j.cursor..];
    assert |Text(r)| == |expected|;
    forall k | 0 <= k < |expected| ensures Text(r)[k] == expected[k] {
      if k < j.cursor {
      } else if k == j.cursor {
      } else {
        assert expected[k] == j.lba[k - 1];
      }
    }
  }

  /** Backspace removes the byte before the cursor and moves the cursor onto its place; with the
      cursor at the start or an empty text it changes nothing. */
  lemma BackspaceEditsText(j: Journal)
    requires j.cursor <= j.index < |j.lba|
    ensures var r := Backspace(j);
      if j.index > 0 && j.cursor > 0 then
        Text(r) == Text(j)[..j.cursor - 1] + Text(j)[j.cursor..] && r.cursor == j.cursor - 1
        && r.lba[r.index] == 0
      else r == j
  {
    if j.index > 0 && j.cursor > 0 {
      var r := Backspace(j);
      var expected := Text(j)[..j.cursor - 1] + Text(j)[j.cursor..];
      assert |Text(r)| == |expected|;
      forall k | 0 <= k < |expected| ensures Text(r)[k] == expected[k] {
        if k < j.cursor - 1 {
        } else {
          assert expected[k] == j.lba[k + 1];
        }
      }
    }
  }

  /** The arrow keys move only the cursor. */
  lemma NavigationKeepsText(j: Journal, key: uint8)
    requires Valid(j) && IsNavigation(key)
    ensures OnKeyDown(j, key).lba == j.lba && OnKeyDown(j, key).index == j.index
  {
  }

  /** Every key changes the text by at most one insertion or one deletion, at the cursor. */
  lemma KeyEditsAtCursor(j: Journal, key: uint8)
    requires Valid(j)
    ensures var r := OnKeyDown(j, key);
      Text(r) == Text(j)
      || (IsInsertion(key) && Text(r) == Text(j)[..j.cursor] + [key] + Text(j)[j.cursor..])
      || (key == BACKSPACE && 0 < j.cursor && Text(r) == Text(j)[..j.cursor - 1] + Text(j)[j.cursor..])
  {
    if j.index < |j.lba| {
      if key == BACKSPACE {
        BackspaceEditsText(j);
      } else if IsInsertion(key) {
        InsertEditsText(j, key);
      }
    }
  }

  /** Up lands just before the newline that ends the previous line (or at the start), down just
      after the next newline (or at the end of the text). */
  lemma UpDownFindNewlines(j: Journal)
    requires j.cursor <= j.index < |j.lba|
    ensures var p := ScanBack(j.lba, j.cursor);
      MoveCursor(j, KEY_UP) == (if p > 0 then p - 1 else 0)
      && (p == 0 || j.lba[p] == NEWLINE) && forall k :: p < k <= j.cursor ==> j.lba[k] != NEWLINE
    ensures var p := ScanForward(j.lba, j.cursor, j.index);
      MoveCursor(j, KEY_DOWN) == (if p < j.index then p + 1 else p)
      && (p == j.index || j.lba[p] == NEWLINE) && forall k :: j.cursor <= k < p ==> j.lba[k] != NEWLINE
  {
  }

  /** The as-written handler agrees with the corrected one whenever its writes stay in the block,
      and goes out of the block exactly for an insertion before the end of a text one byte short
      of filling it. */
  lemma AsWrittenAgrees(j: Journal, key: uint8)
    ensures OnKeyDownAsWritten(j, key).Some? ==> OnKeyDownAsWritten(j, key).value == OnKeyDown(j, key)
    ensures j.cursor <= j.index ==> (OnKeyDownAsWritten(j, key).None? <==>
      j.index + 1 == |j.lba| && IsInsertion(key) && j.cursor < j.index)
    ensures j.index < |j.lba| <= j.cursor ==> (OnKeyDownAsWritten(j, key).None? <==>
      IsInsertion(key) || key == KEY_UP)
  {
  }

  /** With the cursor past the text (ReadInput reloads the text without moving the cursor), a typed
      key does not join the text: the text grows by the stale byte that follows it instead, and
      the key is written at the cursor, outside the text. */
  lemma CursorPastText(j: Journal, key: uint8)
    requires j.index < j.cursor < |j.lba| && IsInsertion(key)
    ensures var r := OnKeyDown(j, key);
      Text(r) == Text(j) + [j.lba[j.index]] && r.lba[j.cursor] == key && r.cursor == j.cursor + 1
  {
    var r := OnKeyDown(j, key);
    assert Text(r) == r.lba[..j.index + 1];
  }

  /** A two-byte block holding one character, cursor before it: typing writes one past the block. */
  lemma InsertOverrunsBlock()
    ensures OnKeyDownAsWritten(Journal([0x61, 0], 1, 0), 0x62).None?
    ensures Text(OnKeyDown(Journal([0x61, 0], 1, 0), 0x62)) == [0x62, 0x61]
  {
    var j := Journal([0x61, 0], 1, 0);
    InsertEditsText(j, 0x62);
    assert Text(j) == [0x61];
  }
}

/** The 80x25 text screen of the web kernel (src/kernel_web.cc): the cell buffer that
    `putcharTUI` writes, the two-digit hexadecimal form `printfHex` prints, and the null check of
    `printf_impl`. Rendering to the canvas is JavaScript's and is not modelled; what `printf`
    hands to it is modelled as the list of strings it receives. */
module TextMode {
  import opened Ints
  import opened Wrappers

  const COLUMNS: nat := 80
  const ROWS: nat := 25
  const CELLS: nat := COLUMNS * ROWS

  type TextBuffer = s: seq<uint16> | |s| == CELLS witness seq(CELLS, _ => 0)

  /** The buffer at start-up: every cell 0. */
  function Blank(): (b: TextBuffer)
    ensures forall i :: 0 <= i < CELLS ==> b[i] == 0
  {
    seq(CELLS, _ => 0)
  }

  /** The cell `putcharTUI` stores: the attribute `(back << 4) | (fore & 0x0f)` as a 16-bit value,
      shifted into the high byte over the character, the whole truncated to 16 bits. */
  function Cell(ch: uint8, fore: uint8, back: uint8): uint16
  {
    var attrib := (back * 16 + fore % 16) % TWO_16;
    (ch + attrib * 256) % TWO_16
  }

  /** The parts of a cell, as a VGA text-mode cell lays them out. */
  function CellChar(c: uint16): uint8 { c % 256 }
  function CellFore(c: uint16): uint8 { (c / 256) % 16 }
  function CellBack(c: uint16): uint8 { c / 4096 }

  /** The truncation to 16 bits drops exactly the background's high nibble. */
  lemma CellValue(ch: uint8, fore: uint8, back: uint8)
    ensures Cell(ch, fore, back) == ch + ((back % 16) * 16 + fore % 16) * 256
  {
    var hi := (back % 16) * 16 + fore % 16;
    var attrib := back * 16 + fore % 16;
    assert attrib % TWO_16 == attrib;
    assert attrib == (back / 16) * 256 + hi;
    var low := ch + hi * 256;
    assert 0 <= low < TWO_16;
    assert ch + attrib * 256 == (back / 16) * TWO_16 + low;
    assert ((back / 16) * TWO_16 + low) % TWO_16 == low;
  }

  /** A character under a high byte splits back into the two. */
  lemma ByteFields(lo: uint8, hi: uint8)
    ensures (lo + hi * 256) % 256 == lo && (lo + hi * 256) / 256 == hi
    ensures (lo + hi * 256) / 4096 == hi / 16
  {
  }

  /** A stored cell keeps the character in its low byte, the foreground nibble low and the low
      nibble of the background high in its high byte; the background's high nibble is shifted out. */
  lemma CellLayout(ch: uint8, fore: uint8, back: uint8)
    ensures Cell(ch, fore, back) % 256 == ch
    ensures Cell(ch, fore, back) / 256 == (back % 16) * 16 + fore % 16
    ensures CellChar(Cell(ch, fore, back)) == ch
    ensures CellFore(Cell(ch, fore, back)) == fore % 16
    ensures CellBack(Cell(ch, fore, back)) == back % 16
  {
    var hi := (back % 16) * 16 + fore % 16;
    CellValue(ch, fore, back);
    ByteFields(ch, hi);
    assert hi % 16 == fore % 16 && hi / 16 == back % 16;
  }

  /** Cells are the same exactly when character, foreground and background (all as 4-bit colours)
      are the same. */
  lemma CellInjective(ch1: uint8, fore1: uint8, back1: uint8, ch2: uint8, fore2: uint8, back2: uint8)
    ensures Cell(ch1, fore1, back1) == Cell(ch2, fore2, back2)
      <==> ch1 == ch2 && fore1 % 16 == fore2 % 16 && back1 % 16 == back2 % 16
  {
    CellLayout(ch1, fore1, back1);
    CellLayout(ch2, fore2, back2);
    if ch1 == ch2 && fore1 % 16 == fore2 % 16 && back1 % 16 == back2 % 16 {
      var c1, c2 := Cell(ch1, fore1, back1), Cell(ch2, fore2, back2);
      assert c1 == (c1 / 256) * 256 + c1 % 256;
      assert c2 == (c2 / 256) * 256 + c2 % 256;
    }
  }

  predicate OnScreen(x: int, y: int) { 0 <= x < COLUMNS && 0 <= y < ROWS }

  /** Row-major index of a screen position. */
  function CellIndex(x: uint8, y: uint8): (i: nat)
    requires OnScreen(x, y)
    ensures i < CELLS
    ensures i / COLUMNS == y && i % COLUMNS == x
  {
    COLUMNS * y + x
  }

  /** putcharTUI: an off-screen position is ignored; otherwise exactly the position's cell is
      replaced. */
  function PutChar(b: TextBuffer, ch: uint8, fore: uint8, back: uint8, x: uint8, y: uint8): (r: TextBuffer)
    ensures !OnScreen(x, y) ==> r == b
    ensures OnScreen(x, y) ==> r[CellIndex(x, y)] == Cell(ch, fore, back)
    ensures forall i :: 0 <= i < CELLS && !(OnScreen(x, y) && i == CellIndex(x, y)) ==> r[i] == b[i]
  {
    if x >= COLUMNS || y >= ROWS then b
    else b[COLUMNS * y + x := Cell(ch, fore, back)]
  }

  /** The character and colours shown at a position. */
  function CharAt(b: TextBuffer, x: uint8, y: uint8): (r: (uint8, uint8, uint8))
    requires OnScreen(x, y)
  {
    var c := b[CellIndex(x, y)];
    (CellChar(c), CellFore(c), CellBack(c))
  }

  /** After putcharTUI, the position shows the character with the 4-bit colours, and every other
      position shows what it showed before. */
  lemma PutThenRead(b: TextBuffer, ch: uint8, fore: uint8, back: uint8, x: uint8, y: uint8, x2: uint8, y2: uint8)
    requires OnScreen(x2, y2)
    ensures OnScreen(x, y) && x2 == x && y2 == y ==> CharAt(PutChar(b, ch, fore, back, x, y), x2, y2) == (ch, fore % 16, back % 16)
    ensures !(x2 == x && y2 == y) ==> CharAt(PutChar(b, ch, fore, back, x, y), x2, y2) == CharAt(b, x2, y2)
  {
    CellLayout(ch, fore, back);
    if OnScreen(x, y) && !(x2 == x && y2 == y) {
      assert CellIndex(x, y) != CellIndex(x2, y2) by {
        assert CellIndex(x, y) / COLUMNS == y && CellIndex(x, y) % COLUMNS == x;
        assert CellIndex(x2, y2) / COLUMNS == y2 && CellIndex(x2, y2) % COLUMNS == x2;
      }
    }
  }

  // ---------------------------------------------------------------------------
  // printf and printfHex

  /** printf_impl: a null string prints nothing; any other string is handed once to the
      JavaScript renderer. The result is the list of strings handed over. */
  function Printf(s: Option<seq<char>>): (r: seq<seq<char>>)
    ensures |r| <= 1
    ensures r == [] <==> s.None?
    ensures s.Some? ==> r[0] == s.value
  {
    match s
    case None => []
    case Some(t) => [t]
  }

  const HEX_DIGITS: seq<char> := "0123456789ABCDEF"

  predicate IsHexDigit(c: char) { '0' <= c <= '9' || 'A' <= c <= 'F' }

  function HexDigit(n: nat): (c: char)
    requires n < 16
    ensures IsHexDigit(c)
  {
    HEX_DIGITS[n]
  }

  /** The value of an uppercase hexadecimal digit. */
  function HexValue(c: char): (n: nat)
    requires IsHexDigit(c)
    ensures n < 16
  {
    if c <= '9' then (c - '0') as nat else (c - 'A') as nat + 10
  }

  lemma HexDigitValue(n: nat)
    requires n < 16
    ensures HexValue(HexDigit(n)) == n
  {
  }

  /** The text printfHex builds: the high nibble's digit, the low nibble's digit, a space. */
  function HexText(key: uint8): (r: seq<char>)
    ensures |r| == 3 && IsHexDigit(r[0]) && IsHexDigit(r[1]) && r[2] == ' '
  {
    [HexDigit(key / 16), HexDigit(key % 16), ' ']
  }

  /** Reads back a two-digit hexadecimal byte followed by a space. */
  function ParseHexText(t: seq<char>): (r: Option<uint8>)
    ensures r.Some? ==> |t| == 3 && t[2] == ' '
  {
    if |t| == 3 && IsHexDigit(t[0]) && IsHexDigit(t[1]) && t[2] == ' ' then
      Some(HexValue(t[0]) * 16 + HexValue(t[1]))
    else None
  }

  /** printfHex: prints exactly one string, its two digits naming the key. */
  function PrintHex(key: uint8): (r: seq<seq<char>>)
    ensures |r| == 1 && |r[0]| == 3 && r[0][2] == ' '
  {
    Printf(Some(HexText(key)))
  }

  /** What printfHex prints reads back as the key, and only that key prints that text. */
  lemma PrintHexRoundTrip(key: uint8, other: uint8)
    ensures ParseHexText(PrintHex(key)[0]) == Some(key)
    ensures PrintHex(key) == PrintHex(other) <==> key == other
  {
    HexDigitValue(key / 16);
    HexDigitValue(key % 16);
    HexDigitValue(other / 16);
    HexDigitValue(other % 16);
  }
}

/** The web VGA driver of src/drivers/vga_web.cc: the default 256-colour palette, mode 13h
    (320 x 200, one byte per pixel) and the pixel, rectangle and line primitives on the frame
    buffer. Coordinates are unbounded integers; the int32 overflow of `x + w` is not modelled,
    while the int16 state of the line walkers is truncated as in the C++ code. */
module Vga {
  import opened Ints

  const WIDTH: int := 320
  const HEIGHT: int := 200
  const SCREEN_SIZE: int := 64000
  const COLOUR_DEPTH: int := 8

  type Screen = s: seq<uint8> | |s| == SCREEN_SIZE witness seq(SCREEN_SIZE, _ => 0)

  predicate OnScreen(x: int, y: int) {
    0 <= x < WIDTH && 0 <= y < HEIGHT
  }

  /** The offset PutPixel and DarkenPixel use: (y << 8) + (y << 6) + x. */
  function ShiftIndex(x: int, y: int): int {
    y * 256 + y * 64 + x
  }

  /** The offset ReadPixel uses: WIDTH_13H * y + x. */
  function RowIndex(x: int, y: int): int {
    WIDTH * y + x
  }

  /** The two offsets agree, and each on-screen pixel has its own cell. */
  lemma IndexesAgree(x: int, y: int, x': int, y': int)
    ensures ShiftIndex(x, y) == RowIndex(x, y)
    ensures OnScreen(x, y) ==> 0 <= RowIndex(x, y) < SCREEN_SIZE
    ensures OnScreen(x, y) && OnScreen(x', y') && RowIndex(x, y) == RowIndex(x', y') ==> x == x' && y == y'
  {
  }

  /** Every cell of the frame buffer is the pixel of its row and column. */
  lemma CellIsPixel(i: int)
    requires 0 <= i < SCREEN_SIZE
    ensures OnScreen(i % WIDTH, i / WIDTH) && RowIndex(i % WIDTH, i / WIDTH) == i
  {
  }

  // ---------------------------------------------------------------------------
  // The palette

  /** One 6-bit component of the 64-colour EGA palette: 0x15 for the low-intensity bit,
      0x2a for the high-intensity bit, the two or-ed together. */
  function EgaLevel(low: bool, high: bool): (v: nat)
    ensures v == 0 || v == 0x15 || v == 0x2a || v == 0x3f
  {
    (if low then 0x15 else 0) + (if high then 0x2a else 0)
  }

  /** Whether `colour & mask` is set, for a single-bit mask. */
  function Bit(colour: nat, mask: nat): bool
    requires mask > 0
  {
    (colour / mask) % 2 == 1
  }

  /** The 6-bit value of one component of `colour`, by the constructor's four quarters: the
      EGA levels, those levels shifted right by three, those levels shifted left by three into a
      byte and clamped to 63, and black. */
  function Component6(colour: nat, lowMask: nat, highMask: nat): (v: nat)
    requires colour < 256 && lowMask > 0 && highMask > 0
  {
    var level := EgaLevel(Bit(colour, lowMask), Bit(colour, highMask));
    if colour / 64 == 0 then level
    else if colour / 64 == 1 then level / 8
    else if colour / 64 == 2 then (var shifted := (level * 8) % 256; if shifted > 63 then 63 else shifted)
    else 0
  }

  /** A component of the first quarter is an EGA level; of the third, off or full; of the last,
      off; and never above 63. */
  lemma ComponentShape(colour: nat, lowMask: nat, highMask: nat)
    requires colour < 256 && lowMask > 0 && highMask > 0
    ensures var v := Component6(colour, lowMask, highMask);
      v <= 63
      && (colour < 64 ==> v == 0 || v == 0x15 || v == 0x2a || v == 0x3f)
      && (128 <= colour < 192 ==> v == 0 || v == 63)
      && (192 <= colour ==> v == 0)
  {
    var level := EgaLevel(Bit(colour, lowMask), Bit(colour, highMask));
    assert level == 0 || level == 0x15 || level == 0x2a || level == 0x3f;
  }

  datatype Rgb = Rgb(r: uint8, g: uint8, b: uint8)

  /** The default palette entry: each 6-bit component times four. */
  function Palette(colour: nat): (c: Rgb)
    requires colour < 256
  {
    ComponentShape(colour, 0x20, 0x04);
    ComponentShape(colour, 0x10, 0x02);
    ComponentShape(colour, 0x08, 0x01);
    Rgb(Component6(colour, 0x20, 0x04) * 4, Component6(colour, 0x10, 0x02) * 4, Component6(colour, 0x08, 0x01) * 4)
  }

  predicate Scaled(v: int) { v % 4 == 0 && 0 <= v <= 252 }
  predicate OffOrFull(v: int) { v == 0 || v == 252 }
  predicate EgaScaled(v: int) { v == 0 || v == 84 || v == 168 || v == 252 }

  /** Every component is a multiple of four no larger than 252; colours 0-63 are the EGA
      palette, colours 128-191 have each component fully off or fully on, and colours 192-255
      are black. */
  lemma PaletteShape(colour: nat)
    requires colour < 256
    ensures var c := Palette(colour); Scaled(c.r) && Scaled(c.g) && Scaled(c.b)
    ensures colour < 64 ==> (var c := Palette(colour); EgaScaled(c.r) && EgaScaled(c.g) && EgaScaled(c.b))
    ensures 128 <= colour < 192 ==> (var c := Palette(colour); OffOrFull(c.r) && OffOrFull(c.g) && OffOrFull(c.b))
    ensures 192 <= colour ==> Palette(colour) == Rgb(0, 0, 0)
  {
    ComponentShape(colour, 0x20, 0x04);
    ComponentShape(colour, 0x10, 0x02);
    ComponentShape(colour, 0x08, 0x01);
  }

  // ---------------------------------------------------------------------------
  // Modes and single pixels

  /** SupportsMode: only 320 x 200 at eight bits per pixel. */
  function SupportsMode(width: uint32, height: uint32, depth: uint32): (ok: bool)
    ensures ok <==> width == WIDTH && height == HEIGHT && depth == COLOUR_DEPTH
  {
    width == WIDTH && height == HEIGHT && depth == COLOUR_DEPTH
  }

  /** SetMode: refuses any other mode and leaves the screen; on success clears it. */
  function SetMode(s: Screen, width: uint32, height: uint32, depth: uint32): (r: (bool, Screen))
    ensures r.0 == SupportsMode(width, height, depth)
    ensures !r.0 ==> r.1 == s
    ensures r.0 ==> forall i :: 0 <= i < SCREEN_SIZE ==> r.1[i] == 0
  {
    if !SupportsMode(width, height, depth) then (false, s) else (true, seq(SCREEN_SIZE, _ => 0))
  }

  /** PutPixel: an on-screen pixel takes the colour; nothing else changes. */
  function PutPixel(s: Screen, x: int, y: int, colour: uint8): (r: Screen)
    ensures forall px, py :: OnScreen(px, py) ==>
      r[RowIndex(px, py)] == (if px == x && py == y then colour else s[RowIndex(px, py)])
    ensures !OnScreen(x, y) ==> r == s
  {
    if OnScreen(x, y) then s[ShiftIndex(x, y) := colour] else s
  }

  /** ReadPixel: the cell PutPixel writes for an on-screen pixel, 0 elsewhere. */
  function ReadPixel(s: Screen, x: int, y: int): (r: uint8)
    ensures OnScreen(x, y) ==> r == s[ShiftIndex(x, y)]
    ensures !OnScreen(x, y) ==> r == 0
  {
    if x < 0 || WIDTH <= x || y < 0 || HEIGHT <= y then 0 else s[RowIndex(x, y)]
  }

  /** ReadPixel returns what PutPixel wrote, and other pixels are unaffected by the write. */
  lemma PutThenRead(s: Screen, x: int, y: int, colour: uint8, x': int, y': int)
    ensures ReadPixel(PutPixel(s, x, y, colour), x', y') ==
      if OnScreen(x', y') && x' == x && y' == y then colour else ReadPixel(s, x', y')
  {
  }

  /** DarkenPixel: an on-screen pixel goes through the light-to-dark table; nothing else changes. */
  function DarkenPixel(s: Screen, x: int, y: int, lightToDark: seq<uint8>): (r: Screen)
    requires |lightToDark| == 256
    ensures forall px, py :: OnScreen(px, py) ==>
      r[RowIndex(px, py)] == (if px == x && py == y then lightToDark[s[RowIndex(px, py)]] else s[RowIndex(px, py)])
    ensures !OnScreen(x, y) ==> r == s
  {
    if OnScreen(x, y) then s[ShiftIndex(x, y) := lightToDark[s[ShiftIndex(x, y)]]] else s
  }

  // ---------------------------------------------------------------------------
  // Rectangles

  predicate InRect(px: int, py: int, x: int, y: int, w: int, h: int) {
    x <= px < x + w && y <= py < y + h
  }

  /** FillRectangle: exactly the on-screen pixels of [x, x+w) x [y, y+h) take the colour. */
  method FillRectangle(s: Screen, x: int, y: int, w: int, h: int, colour: uint8) returns (r: Screen)
    ensures forall px, py :: OnScreen(px, py) ==>
      r[RowIndex(px, py)] == (if InRect(px, py, x, y, w, h) then colour else s[RowIndex(px, py)])
  {
    r := s;
    var row := y;
    while row < y + h
      invariant y <= row && (row <= y + h || row == y)
      invariant forall px, py :: OnScreen(px, py) ==>
        r[RowIndex(px, py)] == (if x <= px < x + w && y <= py < row then colour else s[RowIndex(px, py)])
    {
      var column := x;
      while column < x + w
        invariant x <= column && (column <= x + w || column == x)
        invariant forall px, py :: OnScreen(px, py) ==>
          r[RowIndex(px, py)] == (if x <= px < x + w && (y <= py < row || (py == row && px < column)) then colour else s[RowIndex(px, py)])
      {
        r := PutPixel(r, column, row, colour);
        column := column + 1;
      }
      row := row + 1;
    }
  }

  /** The outline DrawRectangle draws: rows y and y+h-1 across [x, x+w), columns x and x+w-1
      down [y, y+h). With h <= 0 the two rows are still drawn (and likewise the columns). */
  predicate OnBorder(px: int, py: int, x: int, y: int, w: int, h: int) {
    (x <= px < x + w && (py == y || py == y + h - 1)) || (y <= py < y + h && (px == x || px == x + w - 1))
  }

  /** DrawRectangle: exactly the on-screen pixels of the outline take the colour. */
  method DrawRectangle(s: Screen, x: int, y: int, w: int, h: int, colour: uint8) returns (r: Screen)
    ensures forall px, py :: OnScreen(px, py) ==>
      r[RowIndex(px, py)] == (if OnBorder(px, py, x, y, w, h) then colour else s[RowIndex(px, py)])
  {
    r := s;
    var column := x;
    while column < x + w
      invariant x <= column && (column <= x + w || column == x)
      invariant forall px, py :: OnScreen(px, py) ==>
        r[RowIndex(px, py)] == (if x <= px < column && (py == y || py == y + h - 1) then colour else s[RowIndex(px, py)])
    {
      r := PutPixel(r, column, y, colour);
      r := PutPixel(r, column, y + h - 1, colour);
      column := column + 1;
    }
    var row := y;
    while row < y + h
      invariant y <= row && (row <= y + h || row == y)
      invariant forall px, py :: OnScreen(px, py) ==>
        r[RowIndex(px, py)] == (if (x <= px < x + w && (py == y || py == y + h - 1)) || (y <= py < row && (px == x || px == x + w - 1))
          then colour else s[RowIndex(px, py)])
    {
      r := PutPixel(r, x, row, colour);
      r := PutPixel(r, x + w - 1, row, colour);
      row := row + 1;
    }
  }

  // ---------------------------------------------------------------------------
  // Lines

  /** The loop both line walkers share, named by its roles: the main coordinate `a` runs from
      its start up to, not including, `aEnd`; the other coordinate `b` steps by `bStep` whenever
      the decision value `d` is positive. `b` and `d` are int16 variables. Points are (a, b). */
  function Walk(a: int, aEnd: int, b: int16, d: int16, da: int16, db: int16, bStep: int16): (pts: seq<(int, int)>)
    ensures |pts| == if a < aEnd then aEnd - a else 0
    ensures forall k :: 0 <= k < |pts| ==> pts[k].0 == a + k
    ensures |pts| > 0 ==> pts[0].1 == b
    ensures forall k :: 0 <= k < |pts| - 1 ==> pts[k + 1].1 == pts[k].1 || pts[k + 1].1 == ToInt16(pts[k].1 + bStep)
    decreases aEnd - a
  {
    if a >= aEnd then []
    else if d > 0 then [(a, b as int)] + Walk(a + 1, aEnd, ToInt16(b + bStep), ToInt16(d + 2 * (db - da)), da, db, bStep)
    else [(a, b as int)] + Walk(a + 1, aEnd, b, ToInt16(d + 2 * db), da, db, bStep)
  }

  /** The walk's start: the int16 differences, the step direction of the minor coordinate and
      the first decision value 2*db - da. */
  function StartWalk(a0: int, b0: int, a1: int, b1: int): (pts: seq<(int, int)>)
    ensures |pts| == if a0 < a1 then a1 - a0 else 0
    ensures forall k :: 0 <= k < |pts| ==> pts[k].0 == a0 + k
    ensures |pts| > 0 ==> pts[0].1 == ToInt16(b0)
    ensures forall k :: 0 <= k < |pts| - 1 ==>
      pts[k + 1].1 == pts[k].1 || pts[k + 1].1 == ToInt16(pts[k].1 + WalkStep(b0, b1))
  {
    var da := ToInt16(a1 - a0);
    var db0 := ToInt16(b1 - b0);
    var bStep: int16 := WalkStep(b0, b1);
    var db := if db0 < 0 then ToInt16(-(db0 as int)) else db0;
    Walk(a0, a1, ToInt16(b0), ToInt16(2 * db - da), da, db, bStep)
  }

  /** The direction the minor coordinate moves in: the sign of its int16 difference. */
  function WalkStep(b0: int, b1: int): int16 {
    if ToInt16(b1 - b0) < 0 then -1 else 1
  }

  /** DrawLineLow's points: one per column from x0 up to, not including, x1. */
  function DrawLineLow(x0: int, y0: int, x1: int, y1: int): (pts: seq<(int, int)>)
    ensures |pts| == if x0 < x1 then x1 - x0 else 0
    ensures forall k :: 0 <= k < |pts| ==> pts[k].0 == x0 + k
  {
    StartWalk(x0, y0, x1, y1)
  }

  function Swap(pts: seq<(int, int)>): (r: seq<(int, int)>)
    ensures |r| == |pts| && forall k :: 0 <= k < |pts| ==> r[k] == (pts[k].1, pts[k].0)
  {
    seq(|pts|, k requires 0 <= k < |pts| => (pts[k].1, pts[k].0))
  }

  /** DrawLineHigh's points: one per row from y0 up to, not including, y1. */
  function DrawLineHigh(x0: int, y0: int, x1: int, y1: int): (pts: seq<(int, int)>)
    ensures |pts| == if y0 < y1 then y1 - y0 else 0
    ensures forall k :: 0 <= k < |pts| ==> pts[k].1 == y0 + k
  {
    Swap(StartWalk(y0, x0, y1, x1))
  }

  function Abs(v: int): nat { if v < 0 then -v else v }

  /** DrawLine's points: ordered so the walk goes up the longer axis, one pixel per column of a
      flat line and one per row of a steep one, the far end excluded. */
  function DrawLine(x0: int, y0: int, x1: int, y1: int): (pts: seq<(int, int)>)
    ensures Abs(y1 - y0) < Abs(x1 - x0) ==> (|pts| == Abs(x1 - x0)
      && forall k :: 0 <= k < |pts| ==> pts[k].0 == (if x0 < x1 then x0 else x1) + k)
    ensures Abs(y1 - y0) >= Abs(x1 - x0) ==> (|pts| == Abs(y1 - y0)
      && forall k :: 0 <= k < |pts| ==> pts[k].1 == (if y0 < y1 then y0 else y1) + k)
  {
    if Abs(y1 - y0) < Abs(x1 - x0) then
      if x0 > x1 then DrawLineLow(x1, y1, x0, y0) else DrawLineLow(x0, y0, x1, y1)
    else
      if y0 > y1 then DrawLineHigh(x1, y1, x0, y0) else DrawLineHigh(x0, y0, x1, y1)
  }

  /** The points of a walk whose int16 coordinate cannot wrap stay within one step per point of
      the start, on the side the step points to. */
  lemma {:induction false} WalkStaysNear(pts: seq<(int, int)>, b: int, bStep: int, k: nat)
    requires bStep == 1 || bStep == -1
    requires |pts| > 0 && pts[0].1 == b && -0x4000 < b < 0x4000 && |pts| < 0x4000
    requires forall j :: 0 <= j < |pts| - 1 ==> pts[j + 1].1 == pts[j].1 || pts[j + 1].1 == ToInt16(pts[j].1 + bStep)
    requires k < |pts|
    ensures bStep == 1 ==> b <= pts[k].1 <= b + k
    ensures bStep == -1 ==> b - k <= pts[k].1 <= b
  {
    if k > 0 {
      WalkStaysNear(pts, b, bStep, k - 1);
      assert pts[k].1 == pts[k - 1].1 || pts[k].1 == ToInt16(pts[k - 1].1 + bStep);
    }
  }

  /** The rows of a flat line drawn left to right move monotonically towards y1, at most one per
      column, as long as the coordinates are small enough for the int16 state not to wrap. */
  lemma FlatLineSteps(x0: int, y0: int, x1: int, y1: int, k: nat)
    requires x0 < x1 && x1 - x0 < 0x4000 && -0x4000 < y0 < 0x4000 && -0x4000 < y1 < 0x4000
    requires k < x1 - x0
    ensures var pts := DrawLineLow(x0, y0, x1, y1);
      (y0 <= y1 ==> y0 <= pts[k].1 <= y0 + k) && (y1 < y0 ==> y0 - k <= pts[k].1 <= y0)
  {
    hide StartWalk;
    var pts := DrawLineLow(x0, y0, x1, y1);
    var bStep := WalkStep(y0, y1);
    assert ToInt16(y0) == y0 && ToInt16(y1 - y0) == y1 - y0;
    WalkStaysNear(pts, y0, bStep, k);
  }

  /** Drawing a list of points: each PutPixel in turn. */
  function Plot(s: Screen, pts: seq<(int, int)>, colour: uint8): (r: Screen)
    ensures forall px, py :: OnScreen(px, py) ==>
      r[RowIndex(px, py)] == (if (px, py) in pts then colour else s[RowIndex(px, py)])
    decreases |pts|
  {
    if pts == [] then s else Plot(PutPixel(s, pts[0].0, pts[0].1, colour), pts[1..], colour)
  }

  /** A line whose ends coincide draws nothing: the far end is always excluded. */
  lemma PointLineIsEmpty(s: Screen, x: int, y: int, colour: uint8)
    ensures Plot(s, DrawLine(x, y, x, y), colour) == s
  {
  }
}

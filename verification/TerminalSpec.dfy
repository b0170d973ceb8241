/** The text terminal as a value: cells of pixels, the cursor overlay, and a machine
    that consumes a string one character at a time. The graphics console driver
    batches runs of characters and calls itself; this machine is what it must equal. */
module TerminalSpec {

  // A code unit of a NUL-terminated UCS-2 string; the terminator is not part of it.
  type Char16 = c: int | 0 < c < 0x1_0000 witness 0x20

  const BACKSPACE: Char16 := 0x08
  const LINEFEED: Char16 := 0x0A
  const CARRIAGE_RETURN: Char16 := 0x0D
  const SPACE: Char16 := 0x20
  const NARROW_CHAR: Char16 := 0xFFF0
  const WIDE_CHAR: Char16 := 0xFFF1

  const SPACE_STR: seq<Char16> := [NARROW_CHAR, SPACE]
  const CRLF_STR: seq<Char16> := [CARRIAGE_RETURN, LINEFEED]

  predicate Printable(ch: Char16) {
    ch != BACKSPACE && ch != LINEFEED && ch != CARRIAGE_RETURN && ch != WIDE_CHAR && ch != NARROW_CHAR
  }

  // ----- pixels, cells and the screen -----

  const GLYPH_WIDTH := 8
  const GLYPH_HEIGHT := 19

  // The pixels of one character cell, row by row.
  type Cell = c: seq<bv32> | |c| == GLYPH_WIDTH * GLYPH_HEIGHT witness seq(152, _ => 0)

  // A cell position relative to the top left corner of the text window.
  datatype Pos = Pos(row: int, col: int)

  // The cells that lie on the display. The window is part of it; margins may be too.
  type Screen = map<Pos, Cell>

  // Pixels of a character in given colors; the last argument selects the right half of a wide one.
  type Font = (Char16, bv32, bv32, bool) -> Cell

  const CURSOR_GLYPH: seq<bv8> := [
    0x00, 0x00, 0x00, 0x00, 0x00, 0x00, 0x00, 0x00, 0x00, 0x00,
    0x00, 0x00, 0x00, 0x00, 0x00, 0x00, 0xFF, 0xFF, 0xFF]
  const BITS: seq<bv8> := [0x01, 0x02, 0x04, 0x08, 0x10, 0x20, 0x40, 0x80]

  /** Whether the cursor glyph covers the pixel at row y, counted from the right edge by x. */
  predicate CursorBit(y: int, x: int)
    requires 0 <= y < GLYPH_HEIGHT && 0 <= x < GLYPH_WIDTH
  {
    CURSOR_GLYPH[y] & BITS[x] != 0
  }

  predicate CursorPixel(k: int)
    requires 0 <= k < GLYPH_WIDTH * GLYPH_HEIGHT
  {
    CursorBit(k / GLYPH_WIDTH, GLYPH_WIDTH - k % GLYPH_WIDTH - 1)
  }

  function XorCell(c: Cell, fg: bv32): (r: Cell) {
    seq(GLYPH_WIDTH * GLYPH_HEIGHT, k requires 0 <= k < GLYPH_WIDTH * GLYPH_HEIGHT =>
      if CursorPixel(k) then c[k] ^ fg else c[k])
  }

  lemma XorCellAt(c: Cell, fg: bv32, y: int, x: int)
    requires 0 <= y < GLYPH_HEIGHT && 0 <= x < GLYPH_WIDTH
    ensures var k := y * GLYPH_WIDTH + GLYPH_WIDTH - x - 1;
      XorCell(c, fg)[k] == if CursorBit(y, x) then c[k] ^ fg else c[k]
  {
    hide CursorBit;
    var k := y * GLYPH_WIDTH + GLYPH_WIDTH - x - 1;
    assert k / GLYPH_WIDTH == y && k % GLYPH_WIDTH == GLYPH_WIDTH - x - 1;
  }

  lemma XorTwice(c: Cell, fg: bv32)
    ensures XorCell(XorCell(c, fg), fg) == c
  {
    assert forall k | 0 <= k < |c| :: XorCell(XorCell(c, fg), fg)[k] == c[k];
  }

  function Blank(bg: bv32): Cell {
    seq(GLYPH_WIDTH * GLYPH_HEIGHT, _ => bg)
  }

  /** XOR the cursor glyph onto one cell; a cell outside the display is left alone. */
  function Overlay(s: Screen, p: Pos, fg: bv32): (r: Screen)
    ensures r.Keys == s.Keys
  {
    if p in s then s[p := XorCell(s[p], fg)] else s
  }

  lemma OverlayTwice(s: Screen, p: Pos, fg: bv32)
    ensures Overlay(Overlay(s, p, fg), p, fg) == s
  {
    if p in s {
      XorTwice(s[p], fg);
      assert s[p := XorCell(s[p], fg)][p := s[p]] == s;
    }
  }

  // ----- colors and attributes -----

  // Bits 0 to 3 of an attribute are the foreground color, 4 to 6 the background, 7 the width.
  type Attribute = a: int | 0 <= a < 0x100 witness 0

  const WIDE_ATTRIBUTE := 0x80

  predicate IsWide(attr: Attribute) { attr >= WIDE_ATTRIBUTE }

  function Colors(attr: Attribute): Attribute { if IsWide(attr) then attr - WIDE_ATTRIBUTE else attr }

  function Widen(attr: Attribute): Attribute { Colors(attr) + WIDE_ATTRIBUTE }

  function Narrow(attr: Attribute): Attribute { Colors(attr) }

  const BLACK: bv32 := 0x000000

  const PALETTE: seq<bv32> := [
    BLACK, 0x000098, 0x009800, 0x009898, 0x980000, 0x980098, 0x989800, 0x989898,
    0x303030, 0x0000FF, 0x00FF00, 0x00FFFF, 0xFF0000, 0xFF00FF, 0xFFFF00, 0xFFFFFF]

  function Pick(palette: seq<bv32>, i: nat): bv32
    requires i < |palette|
  {
    if i == 0 then palette[0] else Pick(palette[1..], i - 1)
  }

  function Foreground(attr: Attribute): bv32 { Pick(PALETTE, Colors(attr) % 0x10) }

  function Background(attr: Attribute): bv32 { Pick(PALETTE, Colors(attr) / 0x10) }

  lemma SameColors(a: Attribute, b: Attribute)
    requires Colors(a) == Colors(b)
    ensures Foreground(a) == Foreground(b) && Background(a) == Background(b)
  {
  }

  // ----- the one-character-at-a-time machine -----

  datatype Term = Term(columns: int, rows: int, text: Screen, row: int, col: int, attr: Attribute, visible: bool)
  {
    predicate Inside() { 0 <= row < rows && 0 <= col < columns }

    predicate Window() { forall r, c :: 0 <= r < rows && 0 <= c < columns ==> Pos(r, c) in text }

    function At(): Pos { Pos(row, col) }

    /** What the display shows: the text, with the cursor glyph XORed once where the cursor is. */
    function Picture(): Screen { if visible then Overlay(text, At(), Foreground(attr)) else text }
  }

  function DrawAt(f: Font, text: Screen, p: Pos, ch: Char16, attr: Attribute): Screen {
    var left := text[p := f(ch, Foreground(attr), Background(attr), false)];
    if IsWide(attr) then left[Pos(p.row, p.col + 1) := f(ch, Foreground(attr), Background(attr), true)] else left
  }

  function CharWidth(attr: Attribute): int { if IsWide(attr) then 2 else 1 }

  function DrawRun(f: Font, text: Screen, p: Pos, s: seq<Char16>, attr: Attribute): Screen
    decreases |s|
  {
    if s == [] then text
    else DrawRun(f, DrawAt(f, text, p, s[0], attr), Pos(p.row, p.col + CharWidth(attr)), s[1..], attr)
  }

  /** The window moves up one row and its last row becomes background; margins stay. */
  function Scroll(text: Screen, columns: int, rows: int, bg: bv32): Screen {
    map p | p in text ::
      if 0 <= p.col < columns && 0 <= p.row < rows - 1 && Pos(p.row + 1, p.col) in text then text[Pos(p.row + 1, p.col)]
      else if 0 <= p.col < columns && p.row == rows - 1 then Blank(bg)
      else text[p]
  }

  function LineFeed(t: Term): Term {
    if t.row == t.rows - 1 then t.(text := Scroll(t.text, t.columns, t.rows, Background(t.attr)))
    else t.(row := t.row + 1)
  }

  function NewLine(t: Term): Term { LineFeed(t.(col := 0)) }

  /** Draw one character where the cursor is, step over it, and wrap at the right edge. */
  function PutGlyph(f: Font, t: Term, ch: Char16): Term {
    var t' := t.(text := DrawAt(f, t.text, t.At(), ch, t.attr), col := t.col + CharWidth(t.attr));
    if t'.col >= t.columns then NewLine(t') else t'
  }

  /** A narrow space, whatever the width in force. */
  function PutSpace(f: Font, t: Term): Term {
    PutGlyph(f, t.(attr := Narrow(t.attr)), SPACE).(attr := t.attr)
  }

  function Back(f: Font, t: Term): Term {
    if t.col == 0 && t.row > 0 then
      var t' := t.(row := t.row - 1, col := t.columns - 1);
      PutSpace(f, t').(row := t'.row, col := t'.col)
    else if t.col > 0 then
      var t' := t.(col := t.col - 1);
      PutSpace(f, t').(row := t'.row, col := t'.col)
    else t
  }

  function PutChar(f: Font, t: Term, ch: Char16): Term {
    if ch == BACKSPACE then Back(f, t)
    else if ch == LINEFEED then LineFeed(t)
    else if ch == CARRIAGE_RETURN then t.(col := 0)
    else if ch == WIDE_CHAR then t.(attr := Widen(t.attr))
    else if ch == NARROW_CHAR then t.(attr := Narrow(t.attr))
    else if IsWide(t.attr) && t.col == t.columns - 1 then PutGlyph(f, PutSpace(f, t), ch)
    else PutGlyph(f, t, ch)
  }

  function Put(f: Font, t: Term, s: seq<Char16>): Term
    decreases |s|
  {
    if s == [] then t else Put(f, PutChar(f, t, s[0]), s[1..])
  }

  // ----- what the machine keeps -----

  /** Same geometry, colors and visibility, and the same display cells. */
  ghost predicate Follows(t: Term, t': Term) {
    && t'.columns == t.columns && t'.rows == t.rows && t'.visible == t.visible
    && Colors(t'.attr) == Colors(t.attr)
    && t'.text.Keys == t.text.Keys
  }

  // A terminal in a state the driver can be in between characters.
  ghost predicate Sound(t: Term) { t.Inside() && t.Window() }

  /** Whether a string brings up a printable character while the width is on. */
  predicate WideDue(wide: bool, s: seq<Char16>)
    decreases |s|
  {
    s != [] &&
    if s[0] == WIDE_CHAR then WideDue(true, s[1..])
    else if s[0] == NARROW_CHAR then WideDue(false, s[1..])
    else (wide && Printable(s[0])) || WideDue(wide, s[1..])
  }

  /** Whether a terminal has room for every character of a string. */
  predicate Room(columns: int, wide: bool, s: seq<Char16>) { columns >= 2 || !WideDue(wide, s) }

  /** Printable characters leave what the rest of a string needs as it was. */
  lemma {:induction false} RoomAfter(columns: int, wide: bool, s: seq<Char16>, count: nat)
    requires count <= |s| && Room(columns, wide, s) && forall k :: 0 <= k < count ==> Printable(s[k])
    ensures Room(columns, wide, s[count..])
  {
    if count > 0 {
      RoomAfter(columns, wide, s[1..], count - 1);
      assert s[1..][count - 1..] == s[count..];
    }
  }

  lemma PutGlyphFollows(f: Font, t: Term, ch: Char16)
    requires Sound(t) && t.col + CharWidth(t.attr) <= t.columns
    ensures Follows(t, PutGlyph(f, t, ch)) && Sound(PutGlyph(f, t, ch)) && PutGlyph(f, t, ch).attr == t.attr
  {
    var text := DrawAt(f, t.text, t.At(), ch, t.attr);
    assert t.At() in t.text && (IsWide(t.attr) ==> Pos(t.row, t.col + 1) in t.text);
    assert text.Keys == t.text.Keys;
  }

  lemma PutSpaceFollows(f: Font, t: Term)
    requires t.Inside() && t.Window()
    ensures var t' := PutSpace(f, t); Follows(t, t') && t'.Inside() && t'.Window() && t'.attr == t.attr
    ensures t.col == t.columns - 1 ==> PutSpace(f, t).col == 0
  {
    PutGlyphFollows(f, t.(attr := Narrow(t.attr)), SPACE);
  }

  lemma BackFollows(f: Font, t: Term)
    requires t.Inside() && t.Window()
    ensures var t' := Back(f, t); Follows(t, t') && t'.Inside() && t'.Window() && t'.attr == t.attr
  {
    if t.col == 0 && t.row > 0 {
      PutSpaceFollows(f, t.(row := t.row - 1, col := t.columns - 1));
    } else if t.col > 0 {
      PutSpaceFollows(f, t.(col := t.col - 1));
    }
  }

  lemma PutCharFollows(f: Font, t: Term, ch: Char16)
    requires Sound(t) && (t.columns >= 2 || !(IsWide(t.attr) && Printable(ch)))
    ensures Follows(t, PutChar(f, t, ch)) && Sound(PutChar(f, t, ch))
  {
    if ch == BACKSPACE {
      BackFollows(f, t);
    } else if Printable(ch) {
      if IsWide(t.attr) && t.col == t.columns - 1 {
        PutSpaceFollows(f, t);
        PutGlyphFollows(f, PutSpace(f, t), ch);
      } else {
        PutGlyphFollows(f, t, ch);
      }
    }
  }

  lemma {:induction false} PutFollows(f: Font, t: Term, s: seq<Char16>)
    requires Sound(t) && Room(t.columns, IsWide(t.attr), s)
    ensures Follows(t, Put(f, t, s)) && Sound(Put(f, t, s))
    decreases |s|
  {
    if s != [] {
      PutCharFollows(f, t, s[0]);
      PutFollows(f, PutChar(f, t, s[0]), s[1..]);
    }
  }

  lemma {:induction false} PutConcat(f: Font, t: Term, a: seq<Char16>, b: seq<Char16>)
    ensures Put(f, t, a + b) == Put(f, Put(f, t, a), b)
    decreases |a|
  {
    if a == [] {
      assert a + b == b;
    } else {
      assert (a + b)[1..] == a[1..] + b;
      PutConcat(f, PutChar(f, t, a[0]), a[1..], b);
    }
  }

  // ----- a batch is a fold -----

  /** Drawing a run that fits the row and then wrapping once equals putting its characters one by one. */
  lemma {:induction false} PutRun(f: Font, t: Term, s: seq<Char16>)
    requires s != [] && (forall k | 0 <= k < |s| :: Printable(s[k]))
    requires 0 <= t.col && t.col + CharWidth(t.attr) * |s| <= t.columns
    ensures Put(f, t, s) ==
      var t' := t.(text := DrawRun(f, t.text, t.At(), s, t.attr), col := t.col + CharWidth(t.attr) * |s|);
      if t'.col >= t.columns then NewLine(t') else t'
    decreases |s|
  {
    hide Scroll, DrawAt, Back, PutSpace;
    var one := t.(text := DrawAt(f, t.text, t.At(), s[0], t.attr), col := t.col + CharWidth(t.attr));
    assert PutChar(f, t, s[0]) == PutGlyph(f, t, s[0]);
    if |s| > 1 {
      PutRun(f, one, s[1..]);
    }
  }

  /** Drawing over a cell forgets a cursor that was XORed onto it. */
  lemma DrawOver(f: Font, text: Screen, p: Pos, fg: bv32, s: seq<Char16>, attr: Attribute)
    requires s != []
    ensures DrawRun(f, Overlay(text, p, fg), p, s, attr) == DrawRun(f, text, p, s, attr)
  {
    var g := f(s[0], Foreground(attr), Background(attr), false);
    assert Overlay(text, p, fg)[p := g] == text[p := g];
  }
}

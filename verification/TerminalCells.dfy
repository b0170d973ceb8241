/** What characters leave on the text terminal, cell by cell and pixel by pixel, and where the cursor goes. */
module TerminalCells {
  import opened TerminalSpec

  /** A cell all of whose pixels have one color. */
  ghost predicate Plain(c: Cell, color: bv32) { forall k :: 0 <= k < |c| ==> c[k] == color }

  /** The window has moved up n rows: row r shows what row r + n showed, the rows that came in are background, and
      nothing outside the window has changed. */
  ghost predicate MovedUp(was: Screen, now: Screen, columns: int, rows: int, n: nat, bg: bv32) {
    && now.Keys == was.Keys
    && (forall p {:trigger CellUp(was, now, columns, rows, n, bg, p)} | p in was ::
          CellUp(was, now, columns, rows, n, bg, p))
  }

  ghost predicate CellUp(was: Screen, now: Screen, columns: int, rows: int, n: nat, bg: bv32, p: Pos)
    requires p in was && p in now
  {
    if !(0 <= p.row < rows && 0 <= p.col < columns) then now[p] == was[p]
    else if p.row + n < rows then Pos(p.row + n, p.col) in was && now[p] == was[Pos(p.row + n, p.col)]
    else Plain(now[p], bg)
  }

  /** Two screens with the same cells that agree but for a set of places. */
  ghost predicate SameBut(was: Screen, now: Screen, places: set<Pos>) {
    && now.Keys == was.Keys
    && (forall p | p in was && p !in places :: now[p] == was[p])
  }

  /** The cursor glyph is an underline: the three bottom rows of a cell, in full width. */
  lemma CursorShape(k: nat)
    requires k < GLYPH_WIDTH * GLYPH_HEIGHT
    ensures CursorPixel(k) <==> k / GLYPH_WIDTH >= GLYPH_HEIGHT - 3
  {
    var y, x := k / GLYPH_WIDTH, GLYPH_WIDTH - k % GLYPH_WIDTH - 1;
    assert BITS[x] != 0;
    if y >= 16 {
      assert CURSOR_GLYPH[y] == 0xFF;
    } else {
      assert CURSOR_GLYPH[y] == 0x00;
    }
  }

  /** Every pixel has one color, but for the cursor glyph in the corner if it is visible. */
  ghost predicate Wiped(s: Screen, bg: bv32, fg: bv32, visible: bool) {
    forall p | p in s :: CellWiped(s[p], bg, fg, visible && p == Pos(0, 0))
  }

  ghost predicate CellWiped(c: Cell, bg: bv32, fg: bv32, lit: bool) {
    forall k :: 0 <= k < |c| ==> c[k] == if lit && CursorPixel(k) then bg ^ fg else bg
  }

  lemma BlankPixels(bg: bv32, fg: bv32)
    ensures CellWiped(Blank(bg), bg, fg, false) && CellWiped(XorCell(Blank(bg), fg), bg, fg, true)
  {
    hide CursorPixel;
  }

  /** The picture of a terminal with only blank cells and its cursor in the corner. */
  lemma PlainWiped(t: Term, bg: bv32)
    requires t.row == 0 && t.col == 0 && forall p | p in t.text :: t.text[p] == Blank(bg)
    ensures Wiped(t.Picture(), bg, Foreground(t.attr), t.visible)
  {
    hide Foreground, XorCell, Blank, CellWiped;
    BlankPixels(bg, Foreground(t.attr));
  }

  // ----- line feeds -----

  lemma ScrollMovesUp(text: Screen, columns: int, rows: int, bg: bv32)
    requires rows >= 1 && forall r, c :: 0 <= r < rows && 0 <= c < columns ==> Pos(r, c) in text
    ensures MovedUp(text, Scroll(text, columns, rows, bg), columns, rows, 1, bg)
  {
    hide Scroll, CellUp;
    var now := Scroll(text, columns, rows, bg);
    ScrollKeys(text, columns, rows, bg);
    forall p | p in text
      ensures CellUp(text, now, columns, rows, 1, bg, p)
    {
      ScrollCell(text, columns, rows, bg, p);
    }
  }

  lemma ScrollKeys(text: Screen, columns: int, rows: int, bg: bv32)
    ensures Scroll(text, columns, rows, bg).Keys == text.Keys
  {
  }

  lemma ScrollCell(text: Screen, columns: int, rows: int, bg: bv32, p: Pos)
    requires rows >= 1 && p in text && forall r, c :: 0 <= r < rows && 0 <= c < columns ==> Pos(r, c) in text
    ensures p in Scroll(text, columns, rows, bg)
    ensures CellUp(text, Scroll(text, columns, rows, bg), columns, rows, 1, bg, p)
  {
    if 0 <= p.row < rows - 1 && 0 <= p.col < columns {
      var r, c := p.row + 1, p.col;
      assert Pos(r, c) in text;
    }
  }

  /** A line feed in the last row moves the window up one row; the cursor stays. */
  lemma LineFeedMovesUp(f: Font, t: Term)
    requires Sound(t) && t.row == t.rows - 1
    ensures var t' := PutChar(f, t, LINEFEED);
      t' == t.(text := t'.text) && MovedUp(t.text, t'.text, t.columns, t.rows, 1, Background(t.attr))
  {
    hide Background, Scroll, MovedUp;
    ScrollMovesUp(t.text, t.columns, t.rows, Background(t.attr));
  }

  lemma MovedUpNone(text: Screen, columns: int, rows: int, bg: bv32)
    ensures MovedUp(text, text, columns, rows, 0, bg)
  {
  }

  lemma MovedUpMore(a: Screen, b: Screen, c: Screen, columns: int, rows: int, m: nat, n: nat, bg: bv32)
    requires MovedUp(a, b, columns, rows, m, bg) && MovedUp(b, c, columns, rows, n, bg)
    ensures MovedUp(a, c, columns, rows, m + n, bg)
  {
    hide Plain;
    forall p | p in a
      ensures CellUp(a, c, columns, rows, m + n, bg, p)
    {
      assert CellUp(a, b, columns, rows, m, bg, p) && CellUp(b, c, columns, rows, n, bg, p);
      var q := Pos(p.row + n, p.col);
      if 0 <= p.row < rows && 0 <= p.col < columns && q.row < rows {
        assert CellUp(a, b, columns, rows, m, bg, q);
      }
    }
  }

  predicate OnlyLineFeeds(s: seq<Char16>) { forall k :: 0 <= k < |s| ==> s[k] == LINEFEED }

  /** Line feeds move the cursor down to the last row and no further; each one more moves the window up a row. */
  ghost predicate FedDown(t: Term, t': Term, n: nat) {
    var below := t.rows - 1 - t.row;
    && t' == t.(text := t'.text, row := if n <= below then t.row + n else t.rows - 1)
    && MovedUp(t.text, t'.text, t.columns, t.rows, if n <= below then 0 else n - below, Background(t.attr))
  }

  lemma {:induction false} LineFeedsMoveUp(f: Font, t: Term, s: seq<Char16>)
    requires Sound(t) && OnlyLineFeeds(s)
    ensures FedDown(t, Put(f, t, s), |s|)
    decreases |s|
  {
    hide MovedUp, Background, Scroll;
    if s == [] {
      MovedUpNone(t.text, t.columns, t.rows, Background(t.attr));
    } else {
      var t1 := PutChar(f, t, LINEFEED);
      PutCharFollows(f, t, LINEFEED);
      LineFeedsMoveUp(f, t1, s[1..]);
      if t.row == t.rows - 1 {
        LineFeedMovesUp(f, t);
        MovedUpMore(t.text, t1.text, Put(f, t, s).text, t.columns, t.rows, 1, |s| - 1, Background(t.attr));
      }
    }
  }

  /** The same for a string that may be any, as the driver is called with it: just before the right edge, or past it to
      break the line. */
  lemma StringFeeds(f: Font, t: Term, s: seq<Char16>)
    requires t.Window() && 0 <= t.row < t.rows
    requires 0 <= t.col < t.columns || (t.col == t.columns && s == CRLF_STR)
    ensures OnlyLineFeeds(s) ==> FedDown(t, Put(f, t, s).(attr := t.attr), |s|)
  {
    hide FedDown;
    if OnlyLineFeeds(s) {
      assert CRLF_STR[0] != LINEFEED;
      LineFeedsMoveUp(f, t, s);
      FedAttr(t, Put(f, t, s), |s|);
    }
  }

  lemma FedAttr(t: Term, t': Term, n: nat)
    requires FedDown(t, t', n)
    ensures t'.attr == t.attr
  {
  }

  // ----- printable characters and backspace -----

  /** A printable character short of the right edge fills its cell, or its two cells, and nothing else. */
  lemma GlyphShows(f: Font, t: Term, ch: Char16)
    requires Sound(t) && Printable(ch) && t.col + CharWidth(t.attr) < t.columns
    ensures var t', p, q := PutChar(f, t, ch), Pos(t.row, t.col), Pos(t.row, t.col + 1);
      && t' == t.(text := t'.text, col := t.col + CharWidth(t.attr))
      && SameBut(t.text, t'.text, if IsWide(t.attr) then {p, q} else {p})
      && t'.text[p] == f(ch, Foreground(t.attr), Background(t.attr), false)
      && (IsWide(t.attr) ==> t'.text[q] == f(ch, Foreground(t.attr), Background(t.attr), true))
  {
    hide Foreground, Background;
    assert Pos(t.row, t.col) in t.text && Pos(t.row, t.col + 1) in t.text;
  }

  /** One that ends at the right edge goes on to the first column of the next row, and in the last row moves the window
      up with itself in it. */
  lemma GlyphWraps(f: Font, t: Term, ch: Char16)
    requires Sound(t) && Printable(ch) && t.col + CharWidth(t.attr) == t.columns
    ensures var t' := PutChar(f, t, ch); var drawn := DrawAt(f, t.text, t.At(), ch, t.attr);
      && t' == t.(text := t'.text, col := 0, row := if t.row < t.rows - 1 then t.row + 1 else t.row)
      && MovedUp(drawn, t'.text, t.columns, t.rows, if t.row < t.rows - 1 then 0 else 1, Background(t.attr))
  {
    hide Foreground, Background, Scroll, DrawAt, MovedUp;
    var drawn := t.(text := DrawAt(f, t.text, t.At(), ch, t.attr), col := 0);
    DrawnCells(f, t, ch);
    if t.row == t.rows - 1 {
      LineFeedMovesUp(f, drawn);
    } else {
      MovedUpNone(drawn.text, t.columns, t.rows, Background(t.attr));
    }
  }

  lemma DrawnCells(f: Font, t: Term, ch: Char16)
    requires Sound(t) && t.col + CharWidth(t.attr) <= t.columns
    ensures var drawn := DrawAt(f, t.text, t.At(), ch, t.attr);
      && SameBut(t.text, drawn, if IsWide(t.attr) then {t.At(), Pos(t.row, t.col + 1)} else {t.At()})
      && drawn[t.At()] == f(ch, Foreground(t.attr), Background(t.attr), false)
      && (IsWide(t.attr) ==> drawn[Pos(t.row, t.col + 1)] == f(ch, Foreground(t.attr), Background(t.attr), true))
  {
    hide Foreground, Background;
    assert t.At() in t.text && (IsWide(t.attr) ==> Pos(t.row, t.col + 1) in t.text);
  }

  /** A backspace steps back one cell, over the left edge to the end of the row above, and clears only the cell stepped
      onto with a narrow space; it never moves the window, and in the first cell it does nothing. */
  lemma BackspaceClears(f: Font, t: Term)
    requires Sound(t)
    ensures var t' := PutChar(f, t, BACKSPACE);
      if t.row == 0 && t.col == 0 then t' == t
      else
        && t'.row * t.columns + t'.col == t.row * t.columns + t.col - 1 && t'.Inside()
        && t' == t.(text := t'.text, row := t'.row, col := t'.col)
        && SameBut(t.text, t'.text, {t'.At()})
        && t'.text[t'.At()] == f(SPACE, Foreground(Narrow(t.attr)), Background(Narrow(t.attr)), false)
  {
    hide Foreground, Background, Scroll, DrawAt, SameBut;
    if t.col == 0 && t.row > 0 {
      var u := t.(row := t.row - 1, col := t.columns - 1, attr := Narrow(t.attr));
      assert u.row * t.columns + u.col == t.row * t.columns - 1;
      DrawnCells(f, u, SPACE);
    } else if t.col > 0 {
      DrawnCells(f, t.(col := t.col - 1, attr := Narrow(t.attr)), SPACE);
    }
  }

  /** A wide character due in the last column leaves a narrow space there and goes to the start of the next row. */
  lemma WideAtEdge(f: Font, t: Term, ch: Char16)
    requires Sound(t) && Printable(ch) && IsWide(t.attr) && t.col == t.columns - 1 && t.columns >= 2
    ensures var u := PutChar(f, t.(attr := Narrow(t.attr)), SPACE);
      u.col == 0 && PutChar(f, t, ch) == PutChar(f, u.(attr := t.attr), ch)
  {
    hide Foreground, Background, Scroll, DrawAt;
  }

  // ----- colors -----

  lemma {:induction false} PickIs(palette: seq<bv32>, i: nat)
    requires i < |palette|
    ensures Pick(palette, i) == palette[i]
  {
    if i > 0 {
      PickIs(palette[1..], i - 1);
    }
  }

  // Bits 0, 1 and 2 of a color number mix in blue, green and red.
  function Mix(i: nat, blue: bv32, green: bv32, red: bv32): bv32 {
    (if i % 2 == 1 then blue else 0) | (if i / 2 % 2 == 1 then green else 0) | (if i / 4 % 2 == 1 then red else 0)
  }

  function Shade(i: nat): bv32 {
    if i < 8 then Mix(i, 0x000098, 0x009800, 0x980000)
    else if i == 8 then 0x303030
    else Mix(i, 0x0000FF, 0x00FF00, 0xFF0000)
  }

  /** Color numbers mix blue, green and red by their three low bits, bright from 9 on; 8 is a dark gray. The foreground
      has four bits of the attribute and the background the next three. */
  lemma ColorsMix(attr: Attribute)
    ensures Foreground(attr) == Shade(attr % 0x10) && Background(attr) == Shade(attr / 0x10 % 8)
  {
    hide Shade, Pick;
    var i, j := attr % 0x10, attr / 0x10 % 8;
    assert Colors(attr) % 0x10 == i && Colors(attr) / 0x10 == j;
    PickIs(PALETTE, i);
    PickIs(PALETTE, j);
    PaletteIs(i);
    PaletteIs(j);
  }

  lemma PaletteIs(i: nat)
    requires i < 16
    ensures PALETTE[i] == Shade(i)
  {
    if i < 4 {
      if i == 0 {} else if i == 1 {} else if i == 2 {} else {}
    } else if i < 8 {
      if i == 4 {} else if i == 5 {} else if i == 6 {} else {}
    } else if i < 12 {
      if i == 8 {} else if i == 9 {} else if i == 10 {} else {}
    } else {
      if i == 12 {} else if i == 13 {} else if i == 14 {} else {}
    }
  }
}

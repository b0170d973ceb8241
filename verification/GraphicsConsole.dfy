/** The graphics console driver: a text terminal drawn on a graphics output, with a cursor
    that is XORed in and out. OutputString batches printable runs and calls itself for
    backspace, for the last column before a wide character, and for line wrap. */
module GraphicsConsole {
  import opened ConsoleLoop
  import opened TerminalCells
  import opened TerminalSpec

  datatype Status = Success | Unsupported | DeviceError

  // One text mode: its size, the graphics mode it needs, and which cells are on that display.
  datatype ModeData = ModeData(columns: nat, rows: nat, gopModeNumber: nat, cells: set<Pos>)
  {
    predicate Empty() { columns == 0 && rows == 0 }

    ghost predicate Usable() {
      columns >= 1 && rows >= 1 && forall r, c :: 0 <= r < rows && 0 <= c < columns ==> Pos(r, c) in cells
    }
  }

  function Filled(cells: set<Pos>, color: bv32): Screen { map p | p in cells :: Blank(color) }

  function Clear(t: Term): Term { t.(text := Filled(t.text.Keys, Background(t.attr)), row := 0, col := 0) }

  function Fresh(m: ModeData, attr: Attribute, visible: bool): Term {
    Term(m.columns, m.rows, Filled(m.cells, BLACK), 0, 0, attr, visible)
  }

  // ----- runs of calls, on values -----

  datatype Call = OutputString(s: seq<Char16>) | SetMode(n: nat, gopAccepts: bool) | SetAttribute(a: nat)
                | ClearScreen | SetCursorPosition(c: nat, r: nat) | EnableCursor(v: bool)

  // The text mode, the display's mode, the terminal, and whether a refused mode has left the cursor off the screen.
  datatype Session = Session(mode: int, gopMode: nat, term: Term, dark: bool)

  function Apply(f: Font, modes: seq<ModeData>, m: Session, call: Call): Session {
    match call
    case OutputString(s) => m.(term := Put(f, m.term, s).(attr := m.term.attr))
    case SetMode(n, accepts) =>
      if n >= |modes| || modes[n].Empty() then m
      else if n == m.mode then m.(term := Clear(m.term), dark := false)
      else if !accepts && modes[n].gopModeNumber != m.gopMode then m.(dark := !m.dark)
      else Session(n, modes[n].gopModeNumber, Fresh(modes[n], m.term.attr, m.term.visible), false)
    case SetAttribute(a) => if a > 0x7F then m else m.(term := m.term.(attr := a))
    case ClearScreen => m.(term := Clear(m.term), dark := false)
    case SetCursorPosition(c, r) =>
      if c < m.term.columns && r < m.term.rows then m.(term := m.term.(row := r, col := c)) else m
    case EnableCursor(v) => m.(term := m.term.(visible := v))
  }

  function ApplyAll(f: Font, modes: seq<ModeData>, m: Session, calls: seq<Call>): Session
    decreases |calls|
  {
    if calls == [] then m else ApplyAll(f, modes, Apply(f, modes, m, calls[0]), calls[1..])
  }

  /** A call that a session is fit for: a string comes to a terminal with room for it, and while the cursor is off
      the screen only modes are set and the screen cleared. */
  ghost predicate Fit(m: Session, call: Call) {
    && (call.OutputString? ==> Room(m.term.columns, IsWide(m.term.attr), call.s))
    && (m.dark ==> call.SetMode? || call.ClearScreen?)
  }

  ghost predicate AllFit(f: Font, modes: seq<ModeData>, m: Session, calls: seq<Call>)
    decreases |calls|
  {
    calls != [] ==> Fit(m, calls[0]) && AllFit(f, modes, Apply(f, modes, m, calls[0]), calls[1..])
  }

  // How deep a call of OutputString can nest: a line break calls nothing, a space may break the line.
  function Rank(s: seq<Char16>): nat {
    if s == CRLF_STR then 0 else if s == SPACE_STR then 1 else 2
  }

  /** One row of XorGlyph: the pixels from base on are those of cell, row posY, before. */
  method XorRow(bltChar: array<bv32>, posY: nat, fg: bv32, ghost cell: Cell)
    requires bltChar.Length == GLYPH_WIDTH * GLYPH_HEIGHT && posY < GLYPH_HEIGHT
    requires forall k :: posY * GLYPH_WIDTH <= k < posY * GLYPH_WIDTH + GLYPH_WIDTH ==> bltChar[k] == cell[k]
    modifies bltChar
    ensures forall k :: 0 <= k < bltChar.Length ==>
      bltChar[k] == if posY * GLYPH_WIDTH <= k < posY * GLYPH_WIDTH + GLYPH_WIDTH then XorCell(cell, fg)[k]
                    else old(bltChar[k])
  {
    hide CursorBit, XorCell;
    ghost var was := bltChar[..];
    ghost var want := XorCell(cell, fg);
    var base := posY * GLYPH_WIDTH;
    var posX := 0;
    while posX < GLYPH_WIDTH
      invariant 0 <= posX <= GLYPH_WIDTH
      invariant forall k :: 0 <= k < base + GLYPH_WIDTH - posX ==> bltChar[k] == was[k]
      invariant forall k :: base + GLYPH_WIDTH - posX <= k < base + GLYPH_WIDTH ==> bltChar[k] == want[k]
      invariant forall k :: base + GLYPH_WIDTH <= k < bltChar.Length ==> bltChar[k] == was[k]
    {
      XorCellAt(cell, fg, posY, posX);
      var k := base + GLYPH_WIDTH - posX - 1;
      assert bltChar[k] == cell[k];
      if CursorBit(posY, posX) {
        bltChar[k] := bltChar[k] ^ fg;
      }
      assert bltChar[k] == want[k];
      posX := posX + 1;
    }
  }

  /** XOR the cursor glyph, bit by bit, onto a buffer that holds one cell. */
  method XorGlyph(bltChar: array<bv32>, fg: bv32)
    requires bltChar.Length == GLYPH_WIDTH * GLYPH_HEIGHT
    modifies bltChar
    ensures bltChar[..] == XorCell(old(bltChar[..]), fg)
  {
    hide XorCell;
    ghost var cell: Cell := bltChar[..];
    ghost var want := XorCell(cell, fg);
    var posY := 0;
    while posY < GLYPH_HEIGHT
      invariant 0 <= posY <= GLYPH_HEIGHT
      invariant forall k :: 0 <= k < posY * GLYPH_WIDTH ==> bltChar[k] == want[k]
      invariant forall k :: posY * GLYPH_WIDTH <= k < bltChar.Length ==> bltChar[k] == cell[k]
    {
      XorRow(bltChar, posY, fg, cell);
      posY := posY + 1;
    }
  }

  class Console {
    const font: Font
    const modeData: seq<ModeData>

    var mode: int  // -1 until a mode has been set
    var cursorColumn: int
    var cursorRow: int
    var attribute: Attribute
    var cursorVisible: bool
    var lineBuffer: bool  // whether a line buffer has been allocated
    var gopMode: nat  // the mode the graphics output is in
    var screen: Screen
    ghost var text: Screen  // the screen as it would be had the cursor never been drawn

    constructor (font: Font, modeData: seq<ModeData>, gopMode: nat, screen: Screen)
      requires forall m | m in modeData :: m.Empty() || m.Usable()
      ensures this.font == font && this.modeData == modeData && this.gopMode == gopMode
      ensures mode == -1 && !lineBuffer && cursorVisible && attribute == 0x07 && this.screen == screen
    {
      this.font, this.modeData, this.gopMode, this.screen, this.text := font, modeData, gopMode, screen, screen;
      mode, cursorColumn, cursorRow, attribute, cursorVisible, lineBuffer := -1, 0, 0, 0x07, true, false;
    }

    ghost predicate InMode()
      reads this
    {
      0 <= mode < |modeData| && modeData[mode].columns >= 1 && modeData[mode].rows >= 1
    }

    /** The terminal that the driver's state stands for. */
    ghost function State(): Term
      reads this
      requires InMode()
    {
      Term(modeData[mode].columns, modeData[mode].rows, text, cursorRow, cursorColumn, attribute, cursorVisible)
    }

    /** Between calls: a mode is set and the cursor is in its rectangle. */
    ghost predicate Settled()
      reads this
    {
      && InMode() && lineBuffer
      && (forall m | m in modeData :: m.Empty() || m.Usable())
      && State().Inside() && State().Window()
      && attribute == Colors(attribute)
    }

    /** And the cursor is drawn exactly once. */
    ghost predicate Ready()
      reads this
    {
      Settled() && screen == State().Picture()
    }

    /** Or it may be off the screen, if dark. */
    ghost predicate Shows(dark: bool)
      reads this
      requires InMode()
    {
      screen == if dark then text else State().Picture()
    }

    /** The session that the driver's state stands for. */
    ghost function Here(dark: bool): Session
      reads this
      requires InMode()
    {
      Session(mode, gopMode, State(), dark)
    }

    /** Toggle the cursor on the screen: read the cell back, XOR the cursor glyph onto it, write it. */
    method FlushCursor()
      modifies this`screen
      ensures screen == if cursorVisible then Overlay(old(screen), Pos(cursorRow, cursorColumn), Foreground(attribute))
                        else old(screen)
    {
      if !cursorVisible {
        return;
      }
      var p := Pos(cursorRow, cursorColumn);
      if p !in screen {
        return;  // a transfer outside the display is rejected
      }
      var cell: seq<bv32> := screen[p];
      var fg := Foreground(attribute);
      var bltChar := new bv32[GLYPH_WIDTH * GLYPH_HEIGHT](k requires 0 <= k < |cell| => cell[k]);
      assert bltChar[..] == cell;
      XorGlyph(bltChar, fg);
      screen := screen[p := bltChar[..]];
    }

    /** Draw the first count characters of s from the cursor on, without moving it. */
    method DrawUnicodeWeightAtCursorN(s: seq<Char16>, count: nat)
      requires count <= |s|
      modifies this`screen, this`text
      ensures screen == DrawRun(font, old(screen), Pos(cursorRow, cursorColumn), s[..count], attribute)
      ensures text == DrawRun(font, old(text), Pos(cursorRow, cursorColumn), s[..count], attribute)
      ensures old(text).Keys <= text.Keys
    {
      var p := Pos(cursorRow, cursorColumn);
      var k := 0;
      while k < count
        invariant 0 <= k <= count && old(text).Keys <= text.Keys
        invariant DrawRun(font, screen, p, s[k..count], attribute)
               == DrawRun(font, old(screen), Pos(cursorRow, cursorColumn), s[..count], attribute)
        invariant DrawRun(font, text, p, s[k..count], attribute)
               == DrawRun(font, old(text), Pos(cursorRow, cursorColumn), s[..count], attribute)
      {
        assert s[k..count][1..] == s[k + 1..count];
        screen := DrawAt(font, screen, p, s[k], attribute);
        text := DrawAt(font, text, p, s[k], attribute);
        p := Pos(p.row, p.col + CharWidth(attribute));
        k := k + 1;
      }
    }

    /** How many characters fit in one batch, and by how many columns the cursor moves.
        A wide character that would start in the last column ends the batch one column past the edge. */
    method Batch(s: seq<Char16>) returns (count: nat, index: nat)
      requires InMode() && s != [] && Printable(s[0])
      requires 0 <= cursorColumn < modeData[mode].columns
      ensures (count, index) == BatchFrom(s, 0, 0, cursorColumn, modeData[mode].columns, IsWide(attribute))
      ensures BatchEnds(s, count, index, cursorColumn, modeData[mode].columns, IsWide(attribute))
    {
      var maxColumn := modeData[mode].columns;
      BatchFits(s, 0, cursorColumn, maxColumn, IsWide(attribute));
      count, index := 0, 0;
      while cursorColumn + index < maxColumn
        invariant count <= |s| && index == CharWidth(attribute) * count && cursorColumn + index <= maxColumn
        invariant BatchFrom(s, count, index, cursorColumn, maxColumn, IsWide(attribute))
               == BatchFrom(s, 0, 0, cursorColumn, maxColumn, IsWide(attribute))
        decreases maxColumn - index
      {
        if count == |s| || !Printable(s[count]) {
          break;
        }
        if IsWide(attribute) {
          index := index + 1;
          if cursorColumn + index + 1 > maxColumn {
            index := index + 1;
            break;
          }
        }
        count, index := count + 1, index + 1;
      }
    }

    /** Move the cursor down a row, scrolling the window when it is in the last one. */
    method LineFeedChar()
      requires InMode() && screen == text
      modifies this`cursorRow, this`screen, this`text
      ensures State() == LineFeed(old(State())) && screen == text && text.Keys == old(text).Keys
      ensures old(State().Window() && cursorRow == modeData[mode].rows - 1) ==>
        MovedUp(old(text), text, modeData[mode].columns, modeData[mode].rows, 1, Background(attribute))
    {
      hide Background, MovedUp;
      var maxColumn := modeData[mode].columns;
      var maxRow := modeData[mode].rows;
      if cursorRow == maxRow - 1 {
        if State().Window() {
          ScrollMovesUp(screen, maxColumn, maxRow, Background(attribute));
        }
        screen := Scroll(screen, maxColumn, maxRow, Background(attribute));
        text := screen;
      } else {
        cursorRow := cursorRow + 1;
      }
    }

    /** Print a narrow space where the hidden cursor stands, leaving the cursor hidden behind it. */
    method EraseCell() returns (ghost depth: nat)
      requires CanOutput(SPACE_STR) && screen == text
      modifies this`cursorColumn, this`cursorRow, this`attribute, this`screen, this`text
      ensures State() == PutSpace(font, old(State())) && screen == text
      ensures depth <= 2
      decreases 1, 4
    {
      hide PutSpace, Put, Overlay, Foreground, FedDown, OnlyLineFeeds;
      ghost var here := State();
      var _, d := OutputString(SPACE_STR);
      depth := d;
      PutSpaceStr(font, here);
      OverlayTwice(text, State().At(), Foreground(attribute));
      FlushCursor();
    }

    /** Pad the last column with a space, after which the cursor is lit in the first. */
    method PadEdge() returns (ghost depth: nat)
      requires InMode() && State().Window() && State().Inside() && screen == text
      requires cursorColumn == modeData[mode].columns - 1
      modifies this`cursorColumn, this`cursorRow, this`attribute, this`screen, this`text
      ensures State() == PutSpace(font, old(State())) && screen == State().Picture() && State().Window()
      ensures State().Inside() && cursorColumn == 0 && attribute == old(attribute)
      ensures depth <= 2
      decreases 1, 4
    {
      hide PutSpace, Put, Overlay, Foreground, WideDue, FedDown, OnlyLineFeeds;
      ghost var edge := State();
      RoomNested(edge.columns, IsWide(attribute));
      PutSpaceStr(font, edge);
      PutSpaceInside(font, edge);
      var _, d := OutputString(SPACE_STR);
      depth := d;
    }

    /** Break the line under a hidden cursor that has run past the right edge. */
    method WrapLine() returns (ghost depth: nat)
      requires InMode() && State().Window() && 0 <= cursorRow < modeData[mode].rows
      requires cursorColumn == modeData[mode].columns && screen == text
      modifies this`cursorColumn, this`cursorRow, this`attribute, this`screen, this`text
      ensures State() == NewLine(old(State())) && screen == text
      ensures State().Window() && State().Inside() && attribute == old(attribute)
      ensures depth <= 1
      decreases 0, 4
    {
      hide NewLine, Put, Overlay, Foreground, FedDown, OnlyLineFeeds;
      ghost var here := State();
      RoomNested(here.columns, IsWide(attribute));
      FlushCursor();
      var _, d := OutputString(CRLF_STR);
      depth := d;
      PutCrLf(font, here);
      OverlayTwice(text, State().At(), Foreground(attribute));
      FlushCursor();
    }

    /** Step back one cell, up a row from column 0, and clear the cell stepped onto. */
    method BackspaceChar() returns (ghost depth: nat)
      requires InMode() && State().Window() && State().Inside() && screen == text
      modifies this`cursorColumn, this`cursorRow, this`attribute, this`screen, this`text
      ensures State() == Back(font, old(State())) && screen == text
      ensures depth <= 2
      decreases 2, 0
    {
      hide PutSpace, PutGlyph, Put, Overlay, Foreground;
      depth := 0;
      var maxColumn := modeData[mode].columns;
      RoomNested(maxColumn, IsWide(attribute));
      if cursorColumn == 0 && cursorRow > 0 {
        cursorRow := cursorRow - 1;
        cursorColumn := maxColumn - 1;
        PutSpaceStr(font, State());
        depth := EraseCell();
        cursorRow := cursorRow - 1;
        cursorColumn := maxColumn - 1;
      } else if cursorColumn > 0 {
        cursorColumn := cursorColumn - 1;
        PutSpaceStr(font, State());
        depth := EraseCell();
        cursorColumn := cursorColumn - 1;
      }
    }

    /** Print the leading printable characters of s up to the right edge and wrap there.
        With a wide character due in the last column, that column is padded first, possibly
        consuming nothing; the cursor is then lit where the next character will wipe it. */
    method PrintBatch(s: seq<Char16>) returns (count: nat, ghost lit: bool, ghost depth: nat)
      requires InMode() && State().Window() && State().Inside() && s != [] && Printable(s[0])
      requires modeData[mode].columns >= 2 || !IsWide(attribute)
      requires screen == text
            || (screen == State().Picture() && !(IsWide(attribute) && cursorColumn == modeData[mode].columns - 1))
      modifies this`cursorColumn, this`cursorRow, this`attribute, this`screen, this`text
      ensures Spot(State(), count) == BatchStep(font, old(State()), s)
      ensures count <= |s| && State().Window() && State().Inside() && attribute == old(attribute)
      ensures screen == if lit then State().Picture() else text
      ensures lit ==> count < |s| && Printable(s[count])
      ensures lit ==> !(IsWide(attribute) && cursorColumn == modeData[mode].columns - 1)
      ensures depth <= if IsWide(attribute) then 2 else 1
      decreases if IsWide(attribute) then 2 else 1, 0
    {
      hide PutChar, PutGlyph, PutSpace, NewLine, Put, Overlay, Foreground, Background, DrawRun, BatchFrom;
      ghost var start := State();
      var maxColumn := modeData[mode].columns;
      lit, depth := false, 0;
      var index;
      count, index := Batch(s);
      if count > 0 {
        DrawOver(font, text, start.At(), Foreground(attribute), s[..count], attribute);
      }
      DrawUnicodeWeightAtCursorN(s, count);
      assert screen == text;
      cursorColumn := cursorColumn + index;
      if cursorColumn > maxColumn {
        cursorColumn := cursorColumn - 2;
        depth := PadEdge();
        lit := true;
      }
      if cursorColumn >= maxColumn {
        depth := WrapLine();
      }
    }

    /** A character that is not drawn: backspace, line feed, carriage return and the two width switches.
        Only a switch to narrow may find the cursor still lit. */
    method ControlChar(ch: Char16, ghost lit: bool) returns (ghost depth: nat)
      requires InMode() && State().Window() && 0 <= cursorRow < modeData[mode].rows && !Printable(ch)
      requires 0 <= cursorColumn < modeData[mode].columns || ch == CARRIAGE_RETURN
      requires screen == if lit then State().Picture() else text
      requires lit ==> ch == NARROW_CHAR
      modifies this`cursorColumn, this`cursorRow, this`attribute, this`screen, this`text
      ensures State() == PutChar(font, old(State()), ch)
      ensures State().Window() && State().Inside() && Colors(attribute) == old(Colors(attribute))
      ensures screen == if lit then State().Picture() else text
      ensures ch == NARROW_CHAR ==> !IsWide(attribute)
      ensures IsWide(attribute) ==> old(IsWide(attribute)) || ch == WIDE_CHAR
      ensures depth <= if ch == BACKSPACE then 2 else 0
      decreases if ch == BACKSPACE then 2 else 0, 1
    {
      hide Scroll, DrawAt, PutGlyph, XorCell, Foreground, Background, PutSpace, Back, MovedUp;
      depth := 0;
      ghost var here := State();
      if ch == BACKSPACE {
        depth := BackspaceChar();
        BackFollows(font, here);
      } else if ch == LINEFEED {
        LineFeedChar();
      } else if ch == CARRIAGE_RETURN {
        cursorColumn := 0;
      } else if ch == WIDE_CHAR {
        attribute := Widen(attribute);
      } else {
        SameColors(attribute, Narrow(attribute));
        attribute := Narrow(attribute);
      }
    }

    /** The loop over the string, with the cursor off the screen unless lit. */
    method PutString(s: seq<Char16>, ghost lit: bool) returns (ghost depth: nat)
      requires InMode() && State().Window() && 0 <= cursorRow < modeData[mode].rows
      requires 0 <= cursorColumn < modeData[mode].columns || (cursorColumn == modeData[mode].columns && s == CRLF_STR)
      requires Room(modeData[mode].columns, IsWide(attribute), s)
      requires screen == if lit then State().Picture() else text
      requires lit ==> s == SPACE_STR
      modifies this`cursorColumn, this`cursorRow, this`attribute, this`screen, this`text
      ensures State() == Put(font, old(State()), s) && screen == text
      ensures exists n: nat :: Loop(font, s, Spot(old(State()), 0), n) == Spot(State(), |s|)
      ensures State().Inside() && State().Window() && Colors(attribute) == old(Colors(attribute))
      ensures depth <= Rank(s) + 1
      decreases Rank(s), 2
    {
      hide PutChar, Put, Overlay, Foreground, Background, BatchStep, Loop, LoopStep, GoodStep, WideDue;
      depth := 1;
      ghost var start := State();
      ghost var mark := lit;
      var maxColumn := modeData[mode].columns;
      PutEnd(font, start, s);
      var i := 0;
      ghost var n: nat := 0;
      LoopNone(font, s, Spot(start, 0));
      while i < |s|
        invariant 0 <= i <= |s| && Loop(font, s, Spot(start, 0), n) == Spot(State(), i)
        invariant Put(font, State(), s[i..]) == Put(font, start, s)
        invariant 0 <= cursorRow < modeData[mode].rows && State().Window()
        invariant 0 <= cursorColumn < maxColumn || (i == 0 && cursorColumn == maxColumn && s == CRLF_STR)
        invariant Colors(attribute) == Colors(start.attr)
        invariant Room(maxColumn, IsWide(attribute), s[i..])
        invariant s == SPACE_STR && i > 0 ==> !IsWide(attribute)
        invariant screen == if mark then State().Picture() else text
        invariant mark ==> (s == SPACE_STR && i == 0) || (i < |s| && Printable(s[i]))
        invariant mark && i < |s| && Printable(s[i]) ==> !(IsWide(attribute) && cursorColumn == maxColumn - 1)
        invariant depth <= Rank(s) + 1
        decreases |s| - i, if IsWide(attribute) && cursorColumn == maxColumn - 1 then 1 else 0
      {
        PutTail(font, State(), s, i);
        LoopNext(font, s, Spot(start, 0), n, Spot(State(), i));
        n := n + 1;
        ghost var d;
        if !Printable(s[i]) {
          RoomNext(font, State(), s[i..]);
          assert s[i..][1..] == s[i + 1..];
          d := ControlChar(s[i], mark);
          i := i + 1;
        } else {
          BatchGood(font, State(), s, i);
          var count;
          count, mark, d := PrintBatch(s[i..]);
          i := i + count;
        }
        depth := if depth > d + 1 then depth else d + 1;
      }
      PutEnd(font, State(), s);
    }

    /** Write a string. The result is that of putting its characters one at a time, the width
        attribute is restored, and the cursor ends up drawn exactly once.
        A nested call for a space starts with the cursor already off the screen. */
    method OutputString(s: seq<Char16>) returns (status: Status, ghost depth: nat)
      requires mode != -1 ==> CanOutput(s)
      modifies this`cursorColumn, this`cursorRow, this`attribute, this`screen, this`text
      ensures mode == -1 ==> status == Unsupported
      ensures mode == -1 ==> screen == old(screen) && text == old(text) && attribute == old(attribute)
      ensures mode == -1 ==> cursorColumn == old(cursorColumn) && cursorRow == old(cursorRow)
      ensures mode != -1 ==> status == Success
      ensures mode != -1 ==> State() == Put(font, old(State()), s).(attr := old(attribute))
      ensures mode != -1 ==> screen == State().Picture() && State().Inside() && State().Window()
      ensures mode != -1 && OnlyLineFeeds(s) ==> FedDown(old(State()), State(), |s|)
      ensures depth <= Rank(s) + 1
      decreases Rank(s), 3
    {
      hide PutChar, Put, Overlay, Foreground, Background, FedDown, OnlyLineFeeds;
      depth := 1;
      if mode == -1 {
        return Unsupported, depth;
      }
      ghost var here := State();
      // whether the cursor is drawn where it stands, to be wiped by the next character
      ghost var lit := screen != State().Picture();
      OverlayTwice(text, State().At(), Foreground(attribute));
      FlushCursor();
      var originAttribute := attribute;
      depth := PutString(s, lit);
      SameColors(attribute, originAttribute);
      attribute := originAttribute;
      FlushCursor();
      status := Success;
      StringFeeds(font, here, s);
    }

    /** Fill the display with the background color and put the cursor in the corner. */
    method ClearScreen() returns (status: Status)
      requires mode != -1 ==> Settled() && (screen == text || screen == State().Picture())
      modifies this`cursorColumn, this`cursorRow, this`screen, this`text
      ensures mode == -1 ==> status == Unsupported && screen == old(screen)
      ensures mode != -1 ==> status == Success && Ready() && State() == Clear(old(State()))
      ensures mode != -1 ==>
        && cursorColumn == 0 && cursorRow == 0 && screen.Keys == old(screen.Keys)
        && Wiped(screen, Background(attribute), Foreground(attribute), cursorVisible)
    {
      hide Foreground, Background, Overlay, Wiped;
      if mode == -1 {
        return Unsupported;
      }
      screen := Filled(screen.Keys, Background(attribute));
      text := screen;
      cursorColumn, cursorRow := 0, 0;
      FlushCursor();
      PlainWiped(State(), Background(attribute));
      status := Success;
    }

    /** Commit to a mode the graphics output is already in: black screen, cursor in the corner. */
    method EnterMode(modeNumber: nat)
      requires modeNumber < |modeData| && modeData[modeNumber].Usable() && lineBuffer
      requires forall m | m in modeData :: m.Empty() || m.Usable()
      requires attribute == Colors(attribute)
      modifies this`mode, this`cursorColumn, this`cursorRow, this`screen, this`text
      ensures Ready() && mode == modeNumber
      ensures State() == Fresh(modeData[modeNumber], attribute, cursorVisible)
      ensures screen.Keys == modeData[modeNumber].cells && Wiped(screen, BLACK, Foreground(attribute), cursorVisible)
    {
      hide Overlay, Foreground, Background, Wiped;
      screen := Filled(modeData[modeNumber].cells, BLACK);
      text := screen;
      mode := modeNumber;
      cursorColumn, cursorRow := 0, 0;
      FlushCursor();
      PlainWiped(State(), BLACK);
    }

    /** Switch the text mode. The graphics output changes mode only when it has to, and may refuse;
        the old cursor has been erased by then and stays off the screen. */
    method SetMode(modeNumber: nat, gopAccepts: bool) returns (status: Status)
      requires (mode == -1 && !lineBuffer) || (Settled() && (screen == text || screen == State().Picture()))
      requires forall m | m in modeData :: m.Empty() || m.Usable()
      requires attribute == Colors(attribute)
      modifies this
      ensures cursorVisible == old(cursorVisible) && attribute == old(attribute)
      ensures status == Unsupported <==> modeNumber >= |modeData| || modeData[modeNumber].Empty()
      ensures status == DeviceError <==>
        !gopAccepts && modeNumber < |modeData| && !modeData[modeNumber].Empty()
        && modeNumber != old(mode) && modeData[modeNumber].gopModeNumber != old(gopMode)
      ensures status == Success ==> Ready() && mode == modeNumber
      ensures status == Success && modeNumber == old(mode) ==> State() == Clear(old(State()))
      ensures status == Success && modeNumber != old(mode) ==>
        && State() == Fresh(modeData[modeNumber], attribute, cursorVisible)
        && screen.Keys == modeData[modeNumber].cells
        && Wiped(screen, BLACK, Foreground(attribute), cursorVisible)
      ensures status != Success ==> mode == old(mode) && text == old(text)
      ensures status != Success ==> cursorColumn == old(cursorColumn) && cursorRow == old(cursorRow)
      ensures status == Unsupported ==> screen == old(screen) && lineBuffer == old(lineBuffer)
      ensures status != Success ==> gopMode == old(gopMode)
      ensures status == Success && modeNumber == old(mode) ==> gopMode == old(gopMode)
      ensures status == Success && modeNumber != old(mode) ==> gopMode == modeData[modeNumber].gopModeNumber
      ensures status == DeviceError ==> lineBuffer
      ensures status == DeviceError && !old(lineBuffer) ==> screen == old(screen)
      ensures status == DeviceError && old(lineBuffer) ==> Settled() && State() == old(State())
      ensures status == DeviceError && old(lineBuffer) && old(Shows(false)) ==> Shows(true)
      ensures status == DeviceError && old(lineBuffer) && old(Shows(true)) ==> Shows(false)
    {
      hide Overlay, Foreground, Background, Filled, Wiped;
      if modeNumber >= |modeData| {
        return Unsupported;
      }
      if modeData[modeNumber].columns <= 0 && modeData[modeNumber].rows <= 0 {
        return Unsupported;
      }
      assert modeData[modeNumber] in modeData;
      if lineBuffer {
        if modeNumber == mode {
          status := ClearScreen();
          return;
        }
        OverlayTwice(text, State().At(), Foreground(attribute));
        FlushCursor();
        assert old(screen == text) ==> screen == State().Picture();
      }
      lineBuffer := true;
      if modeData[modeNumber].gopModeNumber != gopMode {
        if !gopAccepts {
          return DeviceError;
        }
        gopMode := modeData[modeNumber].gopModeNumber;
      }
      EnterMode(modeNumber);
      status := Success;
    }

    method SetAttribute(newAttribute: nat) returns (status: Status)
      requires Ready() || newAttribute > 0x7F || newAttribute == attribute
      modifies this`attribute, this`screen
      ensures status == Unsupported <==> newAttribute > 0x7F
      ensures !old(Ready()) ==> attribute == old(attribute) && screen == old(screen)
      ensures old(Ready()) ==> Ready()
      ensures old(Ready()) ==>
        State() == if newAttribute > 0x7F then old(State()) else old(State()).(attr := newAttribute)
    {
      hide Overlay, Foreground, Background;
      if newAttribute > 0x7F {
        return Unsupported;
      }
      if newAttribute == attribute {
        return Success;
      }
      OverlayTwice(text, State().At(), Foreground(attribute));
      FlushCursor();
      attribute := newAttribute;
      FlushCursor();
      status := Success;
    }

    method SetCursorPosition(column: nat, row: nat) returns (status: Status)
      requires mode != -1 ==> Ready()
      modifies this`cursorColumn, this`cursorRow, this`screen
      ensures mode == -1 ==> status == Unsupported && screen == old(screen)
      ensures mode != -1 ==> Ready()
      ensures mode != -1 ==>
        (status == Success <==> column < modeData[mode].columns && row < modeData[mode].rows)
      ensures mode != -1 ==>
        State() == if status == Success then old(State()).(row := row, col := column) else old(State())
    {
      hide Overlay, Foreground, Background;
      if mode == -1 {
        return Unsupported;
      }
      if column >= modeData[mode].columns || row >= modeData[mode].rows {
        return Unsupported;
      }
      if cursorColumn == column && cursorRow == row {
        return Success;
      }
      OverlayTwice(text, State().At(), Foreground(attribute));
      FlushCursor();
      cursorColumn, cursorRow := column, row;
      FlushCursor();
      status := Success;
    }

    method EnableCursor(visible: bool) returns (status: Status)
      requires mode != -1 ==> Ready()
      modifies this`cursorVisible, this`screen
      ensures mode == -1 ==> status == Unsupported && screen == old(screen) && cursorVisible == old(cursorVisible)
      ensures mode != -1 ==> status == Success && Ready() && State() == old(State()).(visible := visible)
    {
      hide Overlay, Foreground, Background;
      if mode == -1 {
        return Unsupported;
      }
      OverlayTwice(text, State().At(), Foreground(attribute));
      FlushCursor();
      cursorVisible := visible;
      FlushCursor();
      status := Success;
    }

    /** Any sequence of calls that the session is fit for when they come. The session value predicts the whole outcome:
        wherever the run stops, the cursor is drawn exactly once, unless a refused mode has just left it off. */
    method Run(calls: seq<Call>)
      requires Ready() && AllFit(font, modeData, Here(false), calls)
      modifies this
      ensures Settled()
      ensures var m := ApplyAll(font, modeData, old(Here(false)), calls); Here(m.dark) == m && Shows(m.dark)
    {
      hide Fit, Overlay, Foreground, Background;
      ghost var start := Here(false);
      ghost var dark := false;
      var i := 0;
      assert calls[0..] == calls;
      while i < |calls|
        invariant 0 <= i <= |calls| && Settled() && Shows(dark) && AllFit(font, modeData, Here(dark), calls[i..])
        invariant ApplyAll(font, modeData, Here(dark), calls[i..]) == ApplyAll(font, modeData, start, calls)
      {
        assert calls[i..][0] == calls[i] && calls[i..][1..] == calls[i + 1..];
        ghost var next := Apply(font, modeData, Here(dark), calls[i]);
        Perform(calls[i], dark);
        dark := next.dark;
        i := i + 1;
      }
    }

    method Perform(call: Call, ghost dark: bool)
      requires Settled() && Shows(dark) && Fit(Here(dark), call)
      modifies this
      ensures Settled()
      ensures var m := Apply(font, modeData, old(Here(dark)), call); Here(m.dark) == m && Shows(m.dark)
    {
      hide Put, Overlay, Foreground, Background, FedDown, OnlyLineFeeds, Wiped;
      match call {
        case OutputString(s) => var _, _ := OutputString(s);
        case SetMode(n, accepts) => var _ := SetMode(n, accepts);
        case SetAttribute(a) => var _ := SetAttribute(a);
        case ClearScreen => var _ := ClearScreen();
        case SetCursorPosition(c, r) => var _ := SetCursorPosition(c, r);
        case EnableCursor(v) => var _ := EnableCursor(v);
      }
    }

    ghost predicate CanOutput(s: seq<Char16>)
      reads this
    {
      && InMode() && State().Window() && 0 <= cursorRow < modeData[mode].rows
      && (0 <= cursorColumn < modeData[mode].columns || (cursorColumn == modeData[mode].columns && s == CRLF_STR))
      && Room(modeData[mode].columns, IsWide(attribute), s)
      && (screen == State().Picture() || (s == SPACE_STR && screen == text))
    }
  }

  // ----- what every run keeps -----

  ghost predicate Legal(modes: seq<ModeData>, m: Session) {
    && 0 <= m.mode < |modes| && !modes[m.mode].Empty()
    && m.term.columns == modes[m.mode].columns && m.term.rows == modes[m.mode].rows
    && m.term.text.Keys == modes[m.mode].cells
    && m.term.Inside() && m.term.attr == Colors(m.term.attr)
  }

  lemma ApplyLegal(f: Font, modes: seq<ModeData>, m: Session, call: Call)
    requires Legal(modes, m) && (forall d | d in modes :: d.Empty() || d.Usable())
    requires Fit(m, call)
    ensures Legal(modes, Apply(f, modes, m, call))
  {
    hide Foreground, Background;
    assert modes[m.mode] in modes;
    match call {
      case OutputString(s) =>
        hide Put;
        PutFollows(f, m.term, s);
      case SetMode(n, _) =>
        if n < |modes| { assert modes[n] in modes; }
      case _ =>
    }
  }

  /** In every run the cursor is inside the rectangle of the mode in force, the width attribute is off
      between calls, and the display is exactly that mode's. */
  lemma {:induction false} ApplyAllLegal(f: Font, modes: seq<ModeData>, m: Session, calls: seq<Call>)
    requires Legal(modes, m) && (forall d | d in modes :: d.Empty() || d.Usable()) && AllFit(f, modes, m, calls)
    ensures Legal(modes, ApplyAll(f, modes, m, calls))
    decreases |calls|
  {
    if calls != [] {
      ApplyLegal(f, modes, m, calls[0]);
      ApplyAllLegal(f, modes, Apply(f, modes, m, calls[0]), calls[1..]);
    }
  }
}

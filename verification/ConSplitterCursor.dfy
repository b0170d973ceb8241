/** The console splitter's own cursor, kept when no physical console is attached, and why
    it stays where a graphics console of the same size would have left it. */
module ConSplitterCursor {
  import opened TerminalSpec

  datatype Cursor = Cursor(row: int, col: int)

  function Step(c: Cursor, ch: Char16, maxColumn: int, maxRow: int): Cursor {
    if ch == BACKSPACE then
      if c.col == 0 && c.row > 0 then Cursor(c.row - 1, maxColumn - 1)
      else if c.col > 0 then Cursor(c.row, c.col - 1)
      else c
    else if ch == LINEFEED then
      if c.row < maxRow - 1 then Cursor(c.row + 1, c.col) else c
    else if ch == CARRIAGE_RETURN then Cursor(c.row, 0)
    else if c.col < maxColumn - 1 then Cursor(c.row, c.col + 1)
    else Cursor(if c.row < maxRow - 1 then c.row + 1 else c.row, 0)
  }

  function Walk(c: Cursor, s: seq<Char16>, maxColumn: int, maxRow: int): Cursor
    decreases |s|
  {
    if s == [] then c else Walk(Step(c, s[0], maxColumn, maxRow), s[1..], maxColumn, maxRow)
  }

  class VirtualConsole {
    var cursorColumn: int
    var cursorRow: int

    constructor ()
      ensures cursorColumn == 0 && cursorRow == 0
    {
      cursorColumn, cursorRow := 0, 0;
    }

    /** The loop over the string that runs when there is no real console device. */
    method OutputString(s: seq<Char16>, maxColumn: nat, maxRow: nat)
      modifies this
      ensures Cursor(cursorRow, cursorColumn) == Walk(old(Cursor(cursorRow, cursorColumn)), s, maxColumn, maxRow)
    {
      var i := 0;
      while i < |s|
        invariant 0 <= i <= |s|
        invariant Walk(Cursor(cursorRow, cursorColumn), s[i..], maxColumn, maxRow)
               == Walk(old(Cursor(cursorRow, cursorColumn)), s, maxColumn, maxRow)
      {
        assert s[i..][0] == s[i] && s[i..][1..] == s[i + 1..];
        if s[i] == BACKSPACE {
          if cursorColumn == 0 && cursorRow > 0 {
            cursorRow := cursorRow - 1;
            cursorColumn := maxColumn - 1;
          } else if cursorColumn > 0 {
            cursorColumn := cursorColumn - 1;
          }
        } else if s[i] == LINEFEED {
          if cursorRow < maxRow - 1 {
            cursorRow := cursorRow + 1;
          }
        } else if s[i] == CARRIAGE_RETURN {
          cursorColumn := 0;
        } else if cursorColumn < maxColumn - 1 {
          cursorColumn := cursorColumn + 1;
        } else {
          cursorColumn := 0;
          if cursorRow < maxRow - 1 {
            cursorRow := cursorRow + 1;
          }
        }
        i := i + 1;
      }
    }
  }

  function CursorOf(t: Term): Cursor { Cursor(t.row, t.col) }

  lemma StepAgrees(f: Font, t: Term, ch: Char16)
    requires t.Inside() && !IsWide(t.attr) && ch != WIDE_CHAR && ch != NARROW_CHAR
    ensures var t' := PutChar(f, t, ch);
      && CursorOf(t') == Step(CursorOf(t), ch, t.columns, t.rows)
      && t'.Inside() && t'.attr == t.attr && t'.columns == t.columns && t'.rows == t.rows
  {
    hide Scroll, DrawAt;
  }

  /** For a string without width switches, a graphics console in any in-range state ends with its cursor
      exactly where the splitter's walk puts it, in a terminal of any size from 1 by 1. */
  lemma {:induction false} CursorAgrees(f: Font, t: Term, s: seq<Char16>)
    requires t.Inside() && !IsWide(t.attr) && WIDE_CHAR !in s && NARROW_CHAR !in s
    ensures CursorOf(Put(f, t, s)) == Walk(CursorOf(t), s, t.columns, t.rows)
    decreases |s|
  {
    if s != [] {
      StepAgrees(f, t, s[0]);
      CursorAgrees(f, PutChar(f, t, s[0]), s[1..]);
    }
  }

  /** A single character is where the two part: they agree on it exactly when it is not a width switch,
      except that a one by one terminal has only one place to be. */
  lemma WidthSwitchDiverges(f: Font, t: Term, ch: Char16)
    requires t.Inside() && !IsWide(t.attr)
    ensures CursorOf(PutChar(f, t, ch)) == Step(CursorOf(t), ch, t.columns, t.rows)
       <==> (ch != WIDE_CHAR && ch != NARROW_CHAR) || (t.columns == 1 && t.row == t.rows - 1)
  {
    hide Scroll, DrawAt;
    if ch != WIDE_CHAR && ch != NARROW_CHAR {
      StepAgrees(f, t, ch);
    }
  }
}

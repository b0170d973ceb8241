/** The console engine's loop over a string, as a value: one iteration prints a batch of characters or treats one
    control character. It is what the driver's loop refines, and the place to say when that loop ends. */
module ConsoleLoop {
  import opened TerminalSpec

  // The terminal, and the place in the string, between two iterations.
  datatype Spot = Spot(term: Term, at: nat)

  /** How many characters the counting loop takes into a batch, and by how many columns the cursor will move: from
      count characters and index columns on. A wide character that would start in the last column ends the batch one
      column past the edge. */
  function BatchFrom(s: seq<Char16>, count: nat, index: nat, column: int, maxColumn: int, wide: bool): (nat, nat)
    requires count <= |s|
    decreases |s| - count
  {
    if column + index >= maxColumn || count == |s| || !Printable(s[count]) then (count, index)
    else if wide && column + index + 2 > maxColumn then (count, index + 2)
    else BatchFrom(s, count + 1, index + (if wide then 2 else 1), column, maxColumn, wide)
  }

  ghost predicate BatchEnds(s: seq<Char16>, count: nat, index: nat, column: int, maxColumn: int, wide: bool)
  {
    && count <= |s| && (forall k :: 0 <= k < count ==> Printable(s[k]))
    && if wide && column + index > maxColumn then
         index == 2 * count + 2 && column + 2 * count == maxColumn - 1 && count < |s| && Printable(s[count])
       else
         count >= 1 && index == (if wide then 2 else 1) * count && column + index <= maxColumn
  }

  /** A batch either fits the row or stops one column short of its end. */
  lemma {:induction false} BatchFits(s: seq<Char16>, count: nat, column: int, maxColumn: int, wide: bool)
    requires count <= |s| && (forall k :: 0 <= k < count ==> Printable(s[k])) && s != [] && Printable(s[0])
    requires 0 <= column < maxColumn && column + (if wide then 2 else 1) * count <= maxColumn
    ensures var r := BatchFrom(s, count, (if wide then 2 else 1) * count, column, maxColumn, wide);
      BatchEnds(s, r.0, r.1, column, maxColumn, wide)
    decreases |s| - count
  {
    var index := (if wide then 2 else 1) * count;
    if column + index >= maxColumn || count == |s| || !Printable(s[count]) {
    } else if wide && column + index + 2 > maxColumn {
    } else {
      BatchFits(s, count + 1, column, maxColumn, wide);
    }
  }

  /** One iteration on a printable character: the batch is drawn, a last column too narrow for what follows is padded
      with a space, and a full line is broken. The result says how many characters were consumed. */
  function BatchStep(f: Font, t: Term, s: seq<Char16>): Spot {
    var r := BatchFrom(s, 0, 0, t.col, t.columns, IsWide(t.attr));
    var drawn := t.(text := DrawRun(f, t.text, t.At(), s[..BatchCount(s, t)], t.attr), col := t.col + r.1);
    var padded := if drawn.col > t.columns then PutSpace(f, drawn.(col := drawn.col - 2)) else drawn;
    Spot(if padded.col >= t.columns then NewLine(padded) else padded, r.0)
  }

  function BatchCount(s: seq<Char16>, t: Term): (n: nat)
    ensures n <= |s| && n == BatchFrom(s, 0, 0, t.col, t.columns, IsWide(t.attr)).0
  {
    CountBound(s, 0, 0, t.col, t.columns, IsWide(t.attr));
    BatchFrom(s, 0, 0, t.col, t.columns, IsWide(t.attr)).0
  }

  lemma {:induction false} CountBound(s: seq<Char16>, count: nat, index: nat, column: int, maxColumn: int, wide: bool)
    requires count <= |s|
    ensures count <= BatchFrom(s, count, index, column, maxColumn, wide).0 <= |s|
    decreases |s| - count
  {
    if column + index >= maxColumn || count == |s| || !Printable(s[count]) {
    } else if wide && column + index + 2 > maxColumn {
    } else {
      CountBound(s, count + 1, index + (if wide then 2 else 1), column, maxColumn, wide);
    }
  }

  function LoopStep(f: Font, s: seq<Char16>, p: Spot): Spot {
    if p.at >= |s| then p
    else if !Printable(s[p.at]) then Spot(PutChar(f, p.term, s[p.at]), p.at + 1)
    else
      var b := BatchStep(f, p.term, s[p.at..]);
      Spot(b.term, p.at + b.at)
  }

  function Loop(f: Font, s: seq<Char16>, p: Spot, n: nat): Spot {
    if n == 0 then p else LoopStep(f, s, Loop(f, s, p, n - 1))
  }

  // ----- the nested strings, and batches, in the one-at-a-time machine -----

  lemma PutSpaceStr(f: Font, t: Term)
    ensures Put(f, t, SPACE_STR).(attr := t.attr) == PutSpace(f, t)
    ensures 0 <= t.col < t.columns - 1 ==> PutSpace(f, t).At() == Pos(t.row, t.col + 1)
    ensures t.col == t.columns - 1 && 0 <= t.row < t.rows - 1 ==> PutSpace(f, t).At() == Pos(t.row + 1, 0)
    ensures PutSpace(f, t).attr == t.attr
  {
    hide Scroll, DrawAt;
    var n := t.(attr := Narrow(t.attr));
    assert Put(f, t, SPACE_STR) == Put(f, n, [SPACE]) == PutChar(f, n, SPACE);
  }

  lemma PutTail(f: Font, t: Term, s: seq<Char16>, i: nat)
    requires i < |s|
    ensures Put(f, t, s[i..]) == Put(f, PutChar(f, t, s[i]), s[i + 1..])
  {
    assert s[i..][1..] == s[i + 1..];
  }

  lemma PutEnd(f: Font, t: Term, s: seq<Char16>)
    ensures Put(f, t, s[|s|..]) == t && Put(f, t, s[0..]) == Put(f, t, s)
  {
    assert s[0..] == s;
  }

  lemma PutCrLf(f: Font, t: Term)
    ensures Put(f, t, CRLF_STR) == NewLine(t) && NewLine(t).attr == t.attr
  {
    assert Put(f, t, CRLF_STR) == Put(f, t.(col := 0), [LINEFEED]) == LineFeed(t.(col := 0));
  }

  lemma BatchToEdge(f: Font, t: Term, s: seq<Char16>, count: nat)
    requires 0 < count <= |s| && forall k :: 0 <= k < count ==> Printable(s[k])
    requires 0 <= t.col && t.col + CharWidth(t.attr) * count <= t.columns
    ensures Put(f, t, s) ==
      var t' := t.(text := DrawRun(f, t.text, t.At(), s[..count], t.attr), col := t.col + CharWidth(t.attr) * count);
      Put(f, if t'.col >= t.columns then NewLine(t') else t', s[count..])
  {
    assert s == s[..count] + s[count..];
    PutConcat(f, t, s[..count], s[count..]);
    PutRun(f, t, s[..count]);
  }

  lemma BatchBeforeEdge(f: Font, t: Term, s: seq<Char16>, count: nat)
    requires count < |s| && (forall k :: 0 <= k < count ==> Printable(s[k]))
    requires 0 <= t.col && IsWide(t.attr) && t.col + 2 * count == t.columns - 1
    ensures Put(f, t, s) ==
      Put(f, t.(text := DrawRun(f, t.text, t.At(), s[..count], t.attr), col := t.columns - 1), s[count..])
  {
    if count > 0 {
      BatchToEdge(f, t, s, count);
    } else {
      assert s[0..] == s;
    }
  }

  lemma PadThenPut(f: Font, t: Term, s: seq<Char16>)
    requires s != [] && Printable(s[0]) && IsWide(t.attr) && t.col == t.columns - 1 && t.columns >= 2
    ensures Put(f, PutSpace(f, t), s) == Put(f, t, s)
    ensures PutSpace(f, t).col == 0
  {
  }

  // The same outcome still to come, the cursor inside, and a character consumed or the last column left.
  ghost predicate GoodStep(f: Font, t: Term, s: seq<Char16>, b: Spot) {
    && b.at <= |s| && Put(f, b.term, s[b.at..]) == Put(f, t, s) && (forall k :: 0 <= k < b.at ==> Printable(s[k]))
    && b.term.Inside() && b.term.attr == t.attr && b.term.columns == t.columns && b.term.rows == t.rows
    && (b.at > 0 || (IsWide(t.attr) && t.col == t.columns - 1 && b.term.col == 0))
  }

  /** An iteration leaves the one-at-a-time machine with the same outcome, keeps the cursor inside, and consumes a
      character or leaves the last column for the first. */
  lemma BatchStepPut(f: Font, t: Term, s: seq<Char16>)
    requires s != [] && Printable(s[0]) && t.Inside() && Room(t.columns, IsWide(t.attr), s)
    ensures GoodStep(f, t, s, BatchStep(f, t, s))
  {
    hide PutSpace, Put, DrawRun, WideDue, BatchFrom, NewLine, GoodStep;
    RoomNow(t.columns, IsWide(t.attr), s);
    BatchFits(s, 0, t.col, t.columns, IsWide(t.attr));
    var r := BatchFrom(s, 0, 0, t.col, t.columns, IsWide(t.attr));
    var drawn := t.(text := DrawRun(f, t.text, t.At(), s[..r.0], t.attr), col := t.col + r.1);
    if drawn.col > t.columns {
      BatchPadded(f, t, s, r.0, drawn.(col := drawn.col - 2));
    } else {
      BatchWhole(f, t, s, r.0, drawn);
    }
  }

  lemma BatchWhole(f: Font, t: Term, s: seq<Char16>, count: nat, drawn: Term)
    requires 0 < count <= |s| && (forall k :: 0 <= k < count ==> Printable(s[k]))
    requires t.Inside() && t.col + CharWidth(t.attr) * count <= t.columns
    requires drawn == t.(text := DrawRun(f, t.text, t.At(), s[..count], t.attr),
                         col := t.col + CharWidth(t.attr) * count)
    ensures GoodStep(f, t, s, Spot(if drawn.col >= t.columns then NewLine(drawn) else drawn, count))
  {
    hide Put, DrawRun, NewLine;
    BatchToEdge(f, t, s, count);
    NewLineInside(drawn);
  }

  lemma BatchPadded(f: Font, t: Term, s: seq<Char16>, count: nat, edge: Term)
    requires count < |s| && (forall k :: 0 <= k < count ==> Printable(s[k])) && Printable(s[count])
    requires t.Inside() && IsWide(t.attr) && t.columns >= 2 && t.col + 2 * count == t.columns - 1
    requires edge == t.(text := DrawRun(f, t.text, t.At(), s[..count], t.attr), col := t.columns - 1)
    ensures GoodStep(f, t, s, Spot(PutSpace(f, edge), count)) && PutSpace(f, edge).col == 0
  {
    hide PutSpace, Put, DrawRun;
    BatchBeforeEdge(f, t, s, count);
    PadThenPut(f, edge, s[count..]);
    PutSpaceInside(f, edge);
  }

  lemma NewLineInside(t: Term)
    requires 0 <= t.row < t.rows && 0 < t.columns
    ensures var t' := NewLine(t);
      t'.Inside() && t'.attr == t.attr && t'.columns == t.columns && t'.rows == t.rows && t'.col == 0
  {
    hide Scroll;
  }

  lemma RoomNow(columns: int, wide: bool, s: seq<Char16>)
    requires s != [] && Printable(s[0]) && Room(columns, wide, s)
    ensures columns >= 2 || !wide
  {
  }

  lemma PutSpaceInside(f: Font, t: Term)
    requires t.Inside()
    ensures var t' := PutSpace(f, t); t'.Inside() && t'.columns == t.columns && t'.rows == t.rows && t'.attr == t.attr
    ensures t.col == t.columns - 1 ==> PutSpace(f, t).col == 0
  {
    hide Scroll, DrawAt;
  }

  lemma ControlInside(f: Font, t: Term, ch: Char16)
    requires t.Inside() && !Printable(ch)
    ensures var t' := PutChar(f, t, ch); t'.Inside() && t'.columns == t.columns && t'.rows == t.rows
  {
    hide PutSpace, Scroll;
    if ch == BACKSPACE {
      if t.col == 0 && t.row > 0 {
        PutSpaceInside(f, t.(row := t.row - 1, col := t.columns - 1));
      } else if t.col > 0 {
        PutSpaceInside(f, t.(col := t.col - 1));
      }
    }
  }

  // ----- what the driver's loop needs to know of an iteration -----

  lemma LoopNone(f: Font, s: seq<Char16>, start: Spot)
    ensures Loop(f, s, start, 0) == start
  {
  }

  lemma LoopNext(f: Font, s: seq<Char16>, start: Spot, n: nat, p: Spot)
    requires p == Loop(f, s, start, n) && p.at < |s|
    ensures Loop(f, s, start, n + 1) ==
      if !Printable(s[p.at]) then Spot(PutChar(f, p.term, s[p.at]), p.at + 1)
      else var b := BatchStep(f, p.term, s[p.at..]); Spot(b.term, p.at + b.at)
  {
    hide BatchStep, PutChar;
  }

  lemma RoomNext(f: Font, t: Term, s: seq<Char16>)
    requires s != [] && !Printable(s[0]) && Room(t.columns, IsWide(t.attr), s)
    ensures Room(t.columns, IsWide(PutChar(f, t, s[0]).attr), s[1..])
  {
    hide PutGlyph, Scroll;
  }

  /** The nested strings bring up no wide character. */
  lemma RoomNested(columns: int, wide: bool)
    ensures Room(columns, wide, SPACE_STR) && Room(columns, wide, CRLF_STR)
  {
    assert SPACE_STR[1..] == [SPACE] && CRLF_STR[1..] == [LINEFEED] && [LINEFEED][1..] == [] && [SPACE][1..] == [];
    assert !WideDue(wide, [LINEFEED]) && !WideDue(false, [SPACE]);
  }

  lemma BatchGood(f: Font, t: Term, s: seq<Char16>, i: nat)
    requires i < |s| && Printable(s[i]) && t.Inside() && Room(t.columns, IsWide(t.attr), s[i..])
    ensures t.columns >= 2 || !IsWide(t.attr)
    ensures var b := BatchStep(f, t, s[i..]);
      && i + b.at <= |s| && Put(f, b.term, s[i + b.at..]) == Put(f, t, s[i..])
      && Room(t.columns, IsWide(t.attr), s[i + b.at..])
      && (b.at > 0 || (IsWide(t.attr) && t.col == t.columns - 1 && b.term.col == 0))
  {
    hide BatchStep, PutChar, Put, WideDue;
    var left := s[i..];
    RoomNow(t.columns, IsWide(t.attr), left);
    BatchStepPut(f, t, left);
    var b := BatchStep(f, t, left);
    assert GoodStep(f, t, left, b);
    assert left[b.at..] == s[i + b.at..];
    RoomAfter(t.columns, IsWide(t.attr), left, b.at);
  }

  // ----- when the loop ends -----

  // Between iterations that still have room for what is left of the string.
  ghost predicate Going(s: seq<Char16>, p: Spot) {
    p.at <= |s| && p.term.Inside() && Room(p.term.columns, IsWide(p.term.attr), s[p.at..])
  }

  ghost function Ahead(s: seq<Char16>, p: Spot): int {
    2 * (|s| - p.at) + if IsWide(p.term.attr) && p.term.col == p.term.columns - 1 then 1 else 0
  }

  lemma StepGoing(f: Font, s: seq<Char16>, p: Spot)
    requires Going(s, p) && p.at < |s|
    ensures Going(s, LoopStep(f, s, p)) && Ahead(s, LoopStep(f, s, p)) < Ahead(s, p)
    ensures Put(f, LoopStep(f, s, p).term, s[LoopStep(f, s, p).at..]) == Put(f, p.term, s[p.at..])
  {
    if Printable(s[p.at]) {
      BatchGoing(f, s, p);
    } else {
      ControlGoing(f, s, p);
    }
  }

  lemma BatchGoing(f: Font, s: seq<Char16>, p: Spot)
    requires Going(s, p) && p.at < |s| && Printable(s[p.at])
    ensures Going(s, LoopStep(f, s, p)) && Ahead(s, LoopStep(f, s, p)) < Ahead(s, p)
    ensures Put(f, LoopStep(f, s, p).term, s[LoopStep(f, s, p).at..]) == Put(f, p.term, s[p.at..])
  {
    hide BatchStep, PutChar, Put, Room;
    BatchGood(f, p.term, s, p.at);
    BatchStepPut(f, p.term, s[p.at..]);
    assert GoodStep(f, p.term, s[p.at..], BatchStep(f, p.term, s[p.at..]));
  }

  lemma ControlGoing(f: Font, s: seq<Char16>, p: Spot)
    requires Going(s, p) && p.at < |s| && !Printable(s[p.at])
    ensures Going(s, LoopStep(f, s, p)) && Ahead(s, LoopStep(f, s, p)) < Ahead(s, p)
    ensures Put(f, LoopStep(f, s, p).term, s[LoopStep(f, s, p).at..]) == Put(f, p.term, s[p.at..])
  {
    hide PutChar, Put, Room;
    ControlInside(f, p.term, s[p.at]);
    PutTail(f, p.term, s, p.at);
    RoomNext(f, p.term, s[p.at..]);
    assert s[p.at..][1..] == s[p.at + 1..] && s[p.at..][0] == s[p.at];
  }

  /** With room for all of the string, the loop gets through it, and ends as the one-at-a-time machine does. */
  lemma {:induction false} LoopEnds(f: Font, s: seq<Char16>, start: Spot, n: nat)
    requires Going(s, Loop(f, s, start, n))
    ensures exists m: nat :: Loop(f, s, start, m)
                          == Spot(Put(f, Loop(f, s, start, n).term, s[Loop(f, s, start, n).at..]), |s|)
    decreases Ahead(s, Loop(f, s, start, n))
  {
    var p := Loop(f, s, start, n);
    if p.at == |s| {
      assert Put(f, p.term, s[p.at..]) == p.term;
    } else {
      StepGoing(f, s, p);
      assert Loop(f, s, start, n + 1) == LoopStep(f, s, p);
      LoopEnds(f, s, start, n + 1);
    }
  }

  /** At one column, an iteration leaves a wide character due when one was. */
  lemma StepStuck(f: Font, s: seq<Char16>, p: Spot)
    requires p.at <= |s| && p.term.Inside() && p.term.columns == 1 && WideDue(IsWide(p.term.attr), s[p.at..])
    ensures var q := LoopStep(f, s, p);
      q.at < |s| && q.term.Inside() && q.term.columns == 1 && WideDue(IsWide(q.term.attr), s[q.at..])
  {
    var left, t := s[p.at..], p.term;
    if !Printable(s[p.at]) {
      hide PutSpace, PutGlyph, Scroll;
      ControlInside(f, t, s[p.at]);
      assert left[1..] == s[p.at + 1..];
    } else if IsWide(t.attr) {
      hide PutSpace, DrawRun, WideDue;
      assert BatchFrom(left, 0, 0, 0, 1, true) == (0, 2);
      PutSpaceInside(f, t.(text := DrawRun(f, t.text, t.At(), left[..0], t.attr)));
    } else {
      hide DrawRun, PutSpace;
      assert BatchFrom(left, 0, 0, 0, 1, false) == (1, 1);
      assert left[1..] == s[p.at + 1..];
    }
  }

  lemma DueSome(wide: bool, s: seq<Char16>)
    ensures WideDue(wide, s) ==> s != []
  {
  }

  /** Then no number of iterations gets through the string. */
  lemma {:induction false} LoopStuck(f: Font, s: seq<Char16>, start: Spot, n: nat)
    requires start.at <= |s| && start.term.Inside() && start.term.columns == 1
    requires WideDue(IsWide(start.term.attr), s[start.at..])
    ensures var p := Loop(f, s, start, n);
      p.at < |s| && p.term.Inside() && p.term.columns == 1 && WideDue(IsWide(p.term.attr), s[p.at..])
  {
    hide LoopStep, WideDue;
    if n == 0 {
      DueSome(IsWide(start.term.attr), s[start.at..]);
    } else {
      LoopStuck(f, s, start, n - 1);
      StepStuck(f, s, Loop(f, s, start, n - 1));
    }
  }

  /** The loop over a string ends if and only if the terminal has two columns or the string brings up no printable
      character while the width is on. */
  lemma LoopEndsExactly(f: Font, t: Term, s: seq<Char16>)
    requires t.Inside()
    ensures (exists n: nat :: Loop(f, s, Spot(t, 0), n).at == |s|) <==> Room(t.columns, IsWide(t.attr), s)
  {
    assert s[0..] == s;
    if Room(t.columns, IsWide(t.attr), s) {
      LoopEnds(f, s, Spot(t, 0), 0);
    } else {
      forall n: nat
        ensures Loop(f, s, Spot(t, 0), n).at != |s|
      {
        LoopStuck(f, s, Spot(t, 0), n);
      }
    }
  }
}

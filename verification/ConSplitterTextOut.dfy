/** The console splitter's text output: physical consoles come and go, and the virtual mode table
    is grown, filled column by column, compacted in place and rebuilt. */
module ConSplitterTextOut {
  import opened TextModeTable
  import opened ModeMap

  const CONSOLE_SPLITTER_ALLOC_UNIT: nat := 32

  datatype Status = Success | Unsupported | NotFound

  class TextDevice {
    const modes: ModeList
    const refuses: set<int>  // modes that can be queried but not set
    var mode: int
    var cleared: nat  // how often the screen was cleared on its own

    constructor (modes: ModeList, refuses: set<int>)
      ensures this.modes == modes && this.refuses == refuses
    {
      this.modes, this.refuses := modes, refuses;
      mode, cleared := -1, 0;
    }

    method SetMode(n: int) returns (ok: bool)
      modifies this`mode
      ensures ok <==> 0 <= n < |modes| && modes[n].Answers? && n !in refuses
      ensures mode == if ok then n else old(mode)
    {
      ok := 0 <= n < |modes| && modes[n].Answers? && n !in refuses;
      if ok {
        mode := n;
      }
    }

    method ClearScreen()
      modifies this`cleared
      ensures cleared == old(cleared) + 1
    {
      cleared := cleared + 1;
    }
  }

  function ModesOf(list: seq<TextDevice>): (s: seq<ModeList>)
    ensures |s| == |list|
  {
    seq(|list|, i requires 0 <= i < |list| => list[i].modes)
  }

  /** Table rows as the map stores them: the columns of consoles not yet added hold -1. */
  function Padded(rows: seq<seq<int>>, width: nat, step: nat): (g: seq<seq<int>>)
    requires width <= step
    ensures |g| == |rows|
  {
    seq(|rows|, m requires 0 <= m < |rows| => rows[m] + seq(step - width, _ => -1))
  }

  /** The copying loop of a map that has gained columns. */
  method CopyColumns(map_: array<int>, newStepSize: nat, oldMap: array<int>, oldStepSize: nat, n: nat, maxMode: nat)
    requires map_ != oldMap && 0 < newStepSize && n <= newStepSize && maxMode * newStepSize <= map_.Length
    requires n > 0 ==> 0 < oldStepSize && n <= oldStepSize && maxMode * oldStepSize <= oldMap.Length
    requires forall k :: 0 <= k < map_.Length ==> map_[k] == -1
    modifies map_
    ensures n == 0 ==> forall k :: 0 <= k < map_.Length ==> map_[k] == -1
    ensures n > 0 ==>
      Grid(map_[..], newStepSize, maxMode) == Regrown(Grid(oldMap[..], oldStepSize, maxMode), n, newStepSize)
  {
    hide Grid, Regrown, RegrownTo;
    ghost var was := if n > 0 then Grid(oldMap[..], oldStepSize, maxMode) else [];
    GridConst(map_[..], newStepSize, maxMode, -1);
    RegrownStart(was, n, newStepSize);
    var index, to, from := 0, 0, 0;
    while index < maxMode
      invariant index <= maxMode && to == index * newStepSize && from == index * oldStepSize
      invariant n == 0 ==> forall k :: 0 <= k < map_.Length ==> map_[k] == -1
      invariant n > 0 ==> Grid(map_[..], newStepSize, maxMode) == RegrownTo(was, n, newStepSize, index)
    {
      StepOver(index, maxMode, newStepSize);
      StepOver(index, maxMode, oldStepSize);
      ghost var before := map_[..];
      CopyAcross(map_, to, oldMap, from, n);
      if n > 0 {
        GridHead(oldMap[..], oldStepSize, maxMode, index, from, n);
        assert oldMap[..][from..from + n] == oldMap[from..from + n];
        GridPaste(before, map_[..], newStepSize, maxMode, index, to, oldMap[from..from + n]);
        RegrownStep(was, n, newStepSize, index);
      }
      to, from, index := to + newStepSize, from + oldStepSize, index + 1;
    }
    RegrownEnd(was, n, newStepSize);
  }

  /** The loop over the modes of the first console. */
  method FillFirstColumn(map_: array<int>, step: nat, queryData: array<Geometry>, modes: ModeList)
    requires 0 < step && |modes| * step <= map_.Length && |modes| <= queryData.Length && Honest(modes)
    requires Grid(map_[..], step, |modes|) == seq(|modes|, _ => seq(step, _ => -1))
    modifies map_, queryData
    ensures Grid(map_[..], step, |modes|) == FirstColumnTo(|modes|, step, |modes|)
    ensures queryData[..|modes|] == FirstTable(modes).query
  {
    hide Grid, FirstColumnTo;
    FirstColumnDone(modes, step);
    var mode_, index := 0, 0;
    while mode_ < |modes|
      invariant mode_ <= |modes| && index == mode_ * step
      invariant Grid(map_[..], step, |modes|) == FirstColumnTo(|modes|, step, mode_)
      invariant queryData[..mode_] == FirstTable(modes).query[..mode_]
    {
      StepOver(mode_, |modes|, step);
      if modes[mode_].Answers? {
        queryData[mode_] := modes[mode_].g;
      } else if mode_ == 1 {
        queryData[mode_] := NOWHERE;
      }
      assert index == At(0, step, mode_);
      GridSet(map_[..], step, |modes|, mode_, 0, mode_);
      map_[index] := mode_;
      FirstColumnStep(|modes|, step, mode_);
      mode_, index := mode_ + 1, index + step;
    }
  }

  /** Search the virtual modes for a geometry. */
  method SearchRows(map_: array<int>, step: nat, queryData: array<Geometry>, maxMode: nat, ghost t: Table, g: Geometry)
    returns (index: nat)
    requires Indexed(t) && |t.rows| == maxMode && |t.query| <= queryData.Length && queryData[..|t.query|] == t.query
    requires forall m :: 0 <= m < maxMode ==> m * step < map_.Length && map_[m * step] == t.rows[m][0]
    ensures index == Find(t, g, 0)
  {
    index := 0;
    var entry := 0;
    while index < maxMode
      invariant index <= maxMode && entry == index * step
      invariant Find(t, g, 0) == Find(t, g, index)
    {
      var queryMode := map_[entry];
      assert queryMode == t.rows[index][0] && queryData[queryMode] == GeometryAt(t, index);
      if queryData[queryMode] == g {
        return;
      }
      index, entry := index + 1, entry + step;
    }
  }

  class TextOutSplitter {
    var textOutList: seq<TextDevice>
    var textOutListCount: nat  // the columns there is room for
    var currentNumberOfConsoles: nat
    var queryData: array<Geometry>
    var textOutModeMap: array?<int>
    var maxMode: nat
    var mode: int
    ghost var table: Table  // what the map and the query data stand for, once there is a console

    /** The map shows table t with width columns in use, and the query data covers it. */
    ghost predicate Shows(t: Table, width: nat)
      reads `textOutListCount, `queryData, `textOutModeMap, `maxMode, textOutModeMap, queryData
    {
      && textOutModeMap != null && width <= textOutListCount && 0 < textOutListCount
      && |t.rows| == maxMode && |t.query| <= queryData.Length && 32 <= queryData.Length
      && textOutModeMap.Length == textOutListCount * queryData.Length
      && maxMode <= queryData.Length && maxMode * textOutListCount <= textOutModeMap.Length
      && (forall m :: 0 <= m < |t.rows| ==> |t.rows[m]| == width)
      && Grid(textOutModeMap[..], textOutListCount, maxMode) == Padded(t.rows, width, textOutListCount)
      && queryData[..|t.query|] == t.query
    }

    ghost predicate Valid()
      reads this, textOutModeMap, queryData
    {
      && currentNumberOfConsoles == |textOutList| <= textOutListCount
      && CONSOLE_SPLITTER_ALLOC_UNIT <= textOutListCount && 32 <= queryData.Length
      && (forall d | d in textOutList :: Honest(d.modes))
      && (|textOutList| == 0 ==> maxMode == 1 && queryData[0] == Geometry(40, 12))
      && (|textOutList| == 0 && textOutModeMap != null ==> textOutModeMap.Length > 0 && textOutModeMap[0] == 0)
      && (|textOutList| > 0 ==> Shows(table, |textOutList|) && Agrees(table, ModesOf(textOutList)))
      && (|textOutList| > 0 ==> LowAgrees(table, ModesOf(textOutList)))
    }

    constructor ()
      ensures Valid() && textOutList == [] && mode == 0 && textOutModeMap == null && fresh(queryData)
    {
      textOutList, textOutListCount, currentNumberOfConsoles := [], CONSOLE_SPLITTER_ALLOC_UNIT, 0;
      queryData := new Geometry[CONSOLE_SPLITTER_ALLOC_UNIT](_ => Geometry(40, 12));
      textOutModeMap, maxMode, mode := null, 1, 0;
      table := Table([], []);
    }

    method GrowQueryData()
      modifies this`queryData
      ensures fresh(queryData) && queryData.Length == old(queryData.Length) + CONSOLE_SPLITTER_ALLOC_UNIT
      ensures queryData[..old(queryData.Length)] == old(queryData[..])
    {
      var was := queryData;
      queryData := new Geometry[was.Length + CONSOLE_SPLITTER_ALLOC_UNIT](
        k requires 0 <= k reads was => if k < was.Length then was[k] else NOWHERE);
    }

    /** Reallocate the map for the current number of columns, keeping the columns in use. */
    method GrowMapTable()
      requires 0 < textOutListCount && maxMode <= queryData.Length
      requires textOutModeMap != null ==> CONSOLE_SPLITTER_ALLOC_UNIT <= textOutListCount
      requires textOutModeMap != null && currentNumberOfConsoles > 0 ==>
        var step := textOutListCount - CONSOLE_SPLITTER_ALLOC_UNIT;
        0 < step && currentNumberOfConsoles <= step && maxMode * step <= textOutModeMap.Length
      modifies this`textOutModeMap
      ensures textOutModeMap != null && fresh(textOutModeMap)
      ensures textOutModeMap.Length == textOutListCount * queryData.Length
      ensures maxMode * textOutListCount <= textOutModeMap.Length
      ensures old(textOutModeMap) == null || currentNumberOfConsoles == 0 ==>
        forall k :: 0 <= k < textOutModeMap.Length ==> textOutModeMap[k] == -1
      ensures old(textOutModeMap) != null && currentNumberOfConsoles > 0 ==>
        Grid(textOutModeMap[..], textOutListCount, maxMode)
        == Regrown(Grid(old(textOutModeMap[..]), textOutListCount - CONSOLE_SPLITTER_ALLOC_UNIT, maxMode),
                   currentNumberOfConsoles, textOutListCount)
    {
      hide Grid;
      var oldMap := textOutModeMap;
      var newStepSize, n := textOutListCount, currentNumberOfConsoles;
      var map_ := new int[newStepSize * queryData.Length](_ => -1);
      Fits(maxMode, queryData.Length, newStepSize);
      GridConst(map_[..], newStepSize, maxMode, -1);
      if oldMap != null {
        CopyColumns(map_, newStepSize, oldMap, newStepSize - CONSOLE_SPLITTER_ALLOC_UNIT, n, maxMode);
      }
      textOutModeMap := map_;
    }

    /** Take the modes of the first console: size the query data and the map for them, and fill column 0. */
    method AddOutputMode(textOut: TextDevice)
      requires 32 <= textOutListCount && 32 <= queryData.Length && Honest(textOut.modes)
      requires textOutModeMap == null || currentNumberOfConsoles == 0
      modifies this`maxMode, this`queryData, this`textOutModeMap, queryData
      ensures Shows(FirstTable(textOut.modes), 1)
      ensures fresh(textOutModeMap) && (queryData == old(queryData) || fresh(queryData))
    {
      hide Grid;
      maxMode := |textOut.modes|;
      while maxMode > queryData.Length
        invariant 32 <= queryData.Length && (queryData == old(queryData) || fresh(queryData))
        modifies this`queryData
        decreases maxMode - queryData.Length
      {
        GrowQueryData();
      }
      GrowMapTable();
      GridConst(textOutModeMap[..], textOutListCount, maxMode, -1);
      FillFirstColumn(textOutModeMap, textOutListCount, queryData, textOut.modes);
      FirstColumnDone(textOut.modes, textOutListCount);
    }

    /** Fill the column of a further console from the geometries it has, then drop the virtual modes it lacks. */
    method SyncOutputMode(textOut: TextDevice, ghost t: Table)
      requires Shows(t, currentNumberOfConsoles) && currentNumberOfConsoles < textOutListCount && Indexed(t)
      requires currentNumberOfConsoles > 0
      modifies this`maxMode, this`mode, textOutModeMap, queryData
      ensures Shows(SyncTable(t, textOut.modes), currentNumberOfConsoles + 1)
      ensures mode == Renumber(ScanTo(t, textOut.modes, |textOut.modes|).column, old(mode))
    {
      hide Grid, ScanTo, ScanStep, SyncTable;
      ghost var d := textOut.modes;
      ghost var s := ScanTo(t, d, 0);
      ScanToZero(t, d);
      PaddedColumn(t.rows, s.column, currentNumberOfConsoles, textOutListCount);
      var mode_ := 0;
      while mode_ < |textOut.modes|
        invariant mode_ <= |d| && s == ScanTo(t, d, mode_) && ScanPoint(t, s)
        modifies queryData, textOutModeMap
      {
        ghost var before := s;
        s := ScanStep(t, s, d, mode_);
        ScanToNext(t, d, mode_);
        ScanMode(t, before, textOut, mode_);
        mode_ := mode_ + 1;
      }
      SyncTableIs(t, d);
      DropMissing(t, s);
    }

    /** Keep the virtual modes that the new console has, with its column as the flags. */
    method DropMissing(ghost t: Table, ghost s: Scan)
      requires ScanPoint(t, s) && currentNumberOfConsoles < textOutListCount && 32 <= queryData.Length
      requires maxMode <= queryData.Length
      requires forall m :: 0 <= m < |t.rows| ==> |t.rows[m]| == currentNumberOfConsoles
      modifies this`maxMode, this`mode, textOutModeMap
      ensures Shows(Table(Keep(Widen(t.rows, s.column), s.column), s.query), currentNumberOfConsoles + 1)
      ensures mode == Renumber(s.column, old(mode))
    {
      hide Grid, Padded, Keep, Kept, Widen;
      var stepSize, c := textOutListCount, currentNumberOfConsoles;
      ghost var wide := Widen(t.rows, s.column);
      forall k | 0 <= k < maxMode
        ensures At(c, stepSize, k) < textOutModeMap.Length && textOutModeMap[At(c, stepSize, k)] == s.column[k]
      {
        PaddedAt(t.rows, s.column, c, stepSize, k);
        GridAt(textOutModeMap[..], stepSize, maxMode, k, c);
      }
      maxMode, mode :=
        GetIntersection(textOutModeMap, textOutModeMap, c, stepSize, stepSize, maxMode, mode, s.column);
      PaddedKeep(wide, s.column, c + 1, stepSize);
      KeptWide(t.rows, s.column, c);
      Fits(maxMode, queryData.Length, stepSize);
    }

    /** One mode of the new console. */
    method ScanMode(ghost t: Table, ghost s: Scan, textOut: TextDevice, mode_: nat)
      requires ScanPoint(t, s) && Indexed(t) && mode_ < |textOut.modes|
      requires forall m :: 0 <= m < |t.rows| ==> |t.rows[m]| == currentNumberOfConsoles > 0
      modifies textOutModeMap, queryData
      ensures ScanPoint(t, ScanStep(t, s, textOut.modes, mode_))
    {
      hide Grid, Widen, Padded;
      if textOut.modes[mode_].Fails? {
        if mode_ == 1 {
          MarkEntry(t.rows, s.column, 1, mode_);
          queryData[1] := NOWHERE;
        }
      } else {
        var index := FindRow(t, s, textOut.modes[mode_].g);
        if index < maxMode {
          MarkEntry(t.rows, s.column, index, mode_);
        }
      }
    }

    // The buffers part way through the modes of a new console.
    ghost predicate ScanPoint(t: Table, s: Scan)
      reads this, textOutModeMap, queryData
    {
      && textOutModeMap != null && 0 < textOutListCount && currentNumberOfConsoles < textOutListCount
      && |t.rows| == |s.column| == maxMode && |s.query| == |t.query| <= queryData.Length && 2 <= queryData.Length
      && textOutModeMap.Length == textOutListCount * queryData.Length
      && maxMode * textOutListCount <= textOutModeMap.Length
      && queryData[..|t.query|] == s.query
      && Grid(textOutModeMap[..], textOutListCount, maxMode)
         == Padded(Widen(t.rows, s.column), currentNumberOfConsoles + 1, textOutListCount)
    }

    // The search while a new console is walked.
    method FindRow(ghost t: Table, ghost s: Scan, g: Geometry) returns (index: nat)
      requires textOutModeMap != null && |t.rows| == maxMode && 0 < textOutListCount
      requires maxMode * textOutListCount <= textOutModeMap.Length && currentNumberOfConsoles < textOutListCount
      requires Indexed(t) && |s.query| == |t.query| <= queryData.Length && queryData[..|t.query|] == s.query
      requires |s.column| == |t.rows|
      requires Grid(textOutModeMap[..], textOutListCount, maxMode)
            == Padded(Widen(t.rows, s.column), currentNumberOfConsoles + 1, textOutListCount)
      ensures index == Find(t.(query := s.query), g, 0)
    {
      hide Grid, Padded, Widen;
      forall m | 0 <= m < maxMode
        ensures m * textOutListCount < textOutModeMap.Length
        ensures textOutModeMap[m * textOutListCount] == t.rows[m][0]
      {
        GridAt(textOutModeMap[..], textOutListCount, maxMode, m, 0);
        FirstEntry(t.rows, s.column, currentNumberOfConsoles, textOutListCount, m);
        assert At(0, textOutListCount, m) == m * textOutListCount;
      }
      index := SearchRows(textOutModeMap, textOutListCount, queryData, maxMode, t.(query := s.query), g);
    }

    /** Note in the new console's column that its mode v shows as the given row. Row 1 has a place in
        the map even when there is only one virtual mode. */
    method MarkEntry(ghost rows: seq<seq<int>>, ghost column: seq<int>, row: nat, v: nat)
      requires textOutModeMap != null && |rows| == |column| == maxMode && 0 < textOutListCount
      requires 2 <= queryData.Length && textOutModeMap.Length == textOutListCount * queryData.Length
      requires maxMode * textOutListCount <= textOutModeMap.Length && currentNumberOfConsoles < textOutListCount
      requires (forall m :: 0 <= m < |rows| ==> |rows[m]| == currentNumberOfConsoles) && (row < maxMode || row == 1)
      requires Grid(textOutModeMap[..], textOutListCount, maxMode)
            == Padded(Widen(rows, column), currentNumberOfConsoles + 1, textOutListCount)
      modifies textOutModeMap
      ensures Grid(textOutModeMap[..], textOutListCount, maxMode)
           == Padded(Widen(rows, if row < maxMode then column[row := v] else column),
                     currentNumberOfConsoles + 1, textOutListCount)
    {
      hide Grid;
      var c, stepSize := currentNumberOfConsoles, textOutListCount;
      if row < maxMode {
        GridAt(textOutModeMap[..], stepSize, maxMode, row, c);
        GridSet(textOutModeMap[..], stepSize, maxMode, row, c, v);
        PaddedSet(rows, column, c, stepSize, row, v);
      } else {
        Fits(2, queryData.Length, stepSize);
        Fits(maxMode, 1, stepSize);
        GridSetPast(textOutModeMap[..], stepSize, maxMode, c + row * stepSize, v);
      }
      textOutModeMap[c + row * stepSize] := v;
    }

    lemma MapEntry(m: nat, i: nat)
      requires Shows(table, |textOutList|) && m < maxMode && i < |textOutList|
      ensures textOutListCount * m + i < textOutModeMap.Length
      ensures m < |table.rows| && i < |table.rows[m]|
      ensures textOutModeMap[textOutListCount * m + i] == table.rows[m][i]
    {
      hide Grid, Padded;
      PaddedEntry(table.rows, |textOutList|, textOutListCount, m, i);
      GridAt(textOutModeMap[..], textOutListCount, maxMode, m, i);
    }

    lemma ShowsFacts(t: Table, width: nat)
      requires Shows(t, width)
      ensures 32 <= queryData.Length && width <= textOutListCount && textOutModeMap != null
    {
    }

    lemma TableFacts()
      requires Valid() && |textOutList| > 0
      ensures Indexed(table) && |table.rows| == maxMode > 0 && textOutModeMap != null
    {
    }

    method RowGeometry(m: nat) returns (g: Geometry)
      requires Valid() && |textOutList| > 0 && m < maxMode
      ensures Indexed(table) && |table.rows| == maxMode && g == GeometryAt(table, m)
    {
      hide Grid, Padded;
      MapEntry(m, 0);
      g := queryData[textOutModeMap[textOutListCount * m]];
    }

    // The search between other calls.
    method FirstRow(g: Geometry) returns (index: nat)
      requires Valid() && |textOutList| > 0
      ensures Indexed(table) && |table.rows| == maxMode && index == Find(table, g, 0)
    {
      hide Grid, Padded;
      forall m | 0 <= m < maxMode
        ensures m * textOutListCount < textOutModeMap.Length
        ensures textOutModeMap[m * textOutListCount] == table.rows[m][0]
      {
        MapEntry(m, 0);
      }
      TableFacts();
      index := SearchRows(textOutModeMap, textOutListCount, queryData, maxMode, table, g);
    }

    /** The geometry of a virtual mode. */
    method QueryMode(modeNumber: nat) returns (status: Status, g: Geometry)
      requires Valid()
      ensures status == Success || status == Unsupported
      ensures |textOutList| > 0 ==>
        (status == Success <==> modeNumber < maxMode && GeometryAt(table, modeNumber) != NOWHERE)
      ensures |textOutList| > 0 && status == Success ==> g == GeometryAt(table, modeNumber)
      ensures |textOutList| == 0 ==> (status == Success <==> modeNumber == 0)
      ensures |textOutList| == 0 && status == Success ==> g == Geometry(40, 12)
    {
      g := NOWHERE;
      if modeNumber > 0x7FFF_FFFF || modeNumber >= maxMode {
        return Unsupported, g;
      }
      if textOutModeMap != null {
        if |textOutList| > 0 {
          MapEntry(modeNumber, 0);
        }
        var currentMode := textOutModeMap[textOutListCount * modeNumber];
        g := queryData[currentMode];
      } else {
        g := queryData[modeNumber];
      }
      if g.columns == 0 && g.rows == 0 {
        return Unsupported, g;
      }
      status := Success;
    }

    /** Put every console into its own mode for a virtual mode, or, when it is the current one, clear every screen.
        Every console is asked for its entry of the row: it succeeds exactly when none fails, and each console ends in
        its entry if it takes it and in its old mode otherwise. So all those that do not refuse show the one geometry
        that the virtual mode is queried as, for modes 0 and 1 all those that have that geometry. */
    method SetMode(modeNumber: nat) returns (status: Status)
      requires Valid()
      modifies this`mode, (set d | d in textOutList)
      ensures Valid() && table == old(table)
      ensures modeNumber >= maxMode ==> status == Unsupported && mode == old(mode)
      ensures modeNumber >= maxMode ==> forall d | d in textOutList :: unchanged(d)
      ensures modeNumber < maxMode ==> mode == modeNumber
      ensures modeNumber == old(mode) < maxMode ==>
        status == Success && forall d | d in textOutList :: d.cleared > old(d.cleared) && d.mode == old(d.mode)
      ensures |textOutList| == 0 && modeNumber < maxMode ==> status == Success
      ensures |textOutList| > 0 && modeNumber < maxMode && modeNumber != old(mode) ==>
        && modeNumber < |table.rows| && |table.rows[modeNumber]| == |textOutList|
        && (status == Success <==> AllTake(textOutList, table.rows[modeNumber]))
        && (forall d | d in textOutList :: d.cleared == old(d.cleared))
        && (forall d | d in textOutList :: d.mode == ModeSet(textOutList, table.rows[modeNumber], d, old(d.mode)))
      ensures |textOutList| > 0 && modeNumber < maxMode && modeNumber != old(mode) ==>
        forall i :: 0 <= i < |textOutList| && Once(textOutList, i) ==>
          var n := table.rows[modeNumber][i];
          textOutList[i].mode == if Takes(textOutList[i], n) then n else old(textOutList[i].mode)
      ensures |textOutList| > 0 && modeNumber < maxMode && modeNumber != old(mode) ==>
        forall i :: 0 <= i < |textOutList| && HasRow(table, textOutList[i].modes, modeNumber)
                    && table.rows[modeNumber][i] !in textOutList[i].refuses ==>
          InGeometry(textOutList[i], GeometryAt(table, modeNumber))
    {
      hide Grid, Padded, Agrees, LowAgrees, Shows, Honest, AllTake, ModeSet, HasRow, Takes, Once;
      if |textOutList| > 0 {
        AgreesIndexed(table, ModesOf(textOutList));
        RowWide(modeNumber);
      }
      if modeNumber > 0x7FFF_FFFF || modeNumber >= maxMode {
        return Unsupported;
      }
      if mode == modeNumber {
        ClearScreens();
        return Success;
      }
      status := SetAll(modeNumber);
      mode := modeNumber;
      if |textOutList| > 0 {
        forall i | 0 <= i < |textOutList| && Once(textOutList, i)
          ensures var n := table.rows[modeNumber][i];
            textOutList[i].mode == if Takes(textOutList[i], n) then n else old(textOutList[i].mode)
        {
          SetOnce(textOutList, table.rows[modeNumber], i, old(textOutList[i].mode));
        }
        forall i | 0 <= i < |textOutList| && HasRow(table, textOutList[i].modes, modeNumber)
                   && table.rows[modeNumber][i] !in textOutList[i].refuses
          ensures InGeometry(textOutList[i], GeometryAt(table, modeNumber))
        {
          SetAgreed(table, textOutList, modeNumber, i, old(textOutList[i].mode));
        }
      }
    }

    // The loop over the consoles.
    method SetAll(m: nat) returns (status: Status)
      requires Valid() && m < maxMode
      requires |textOutList| > 0 ==> m < |table.rows| && |table.rows[m]| == |textOutList|
      modifies (set d | d in textOutList)`mode
      ensures |textOutList| == 0 ==> status == Success
      ensures |textOutList| > 0 ==>
        && (status == Success <==> AllTake(textOutList, table.rows[m]))
        && (forall d | d in textOutList :: d.mode == ModeSet(textOutList, table.rows[m], d, old(d.mode)))
    {
      hide Grid, Padded, Agrees, LowAgrees, Honest, Takes, Shows;
      ValidCount();
      if |textOutList| > 0 {
        RowWide(m);
      }
      status := Success;
      var index := 0;
      while index < currentNumberOfConsoles
        invariant index <= |textOutList| && Valid()
        invariant |textOutList| == 0 ==> status == Success
        invariant |textOutList| > 0 ==>
          (status == Success <==> forall k :: 0 <= k < index ==> Takes(textOutList[k], table.rows[m][k]))
        invariant |textOutList| > 0 ==>
          forall d | d in textOutList :: d.mode == ModeSetTo(textOutList, table.rows[m], index, d, old(d.mode))
        modifies (set d | d in textOutList)`mode
      {
        var ok := SetOne(m, index);
        if !ok {
          status := Unsupported;
        }
        index := index + 1;
      }
    }

    lemma RowWide(m: nat)
      requires Valid() && |textOutList| > 0
      ensures |table.rows| == maxMode && (m < maxMode ==> |table.rows[m]| == |textOutList|)
    {
    }

    lemma ValidCount()
      requires Valid()
      ensures currentNumberOfConsoles == |textOutList|
    {
    }

    // One console asked for its own mode.
    method SetOne(m: nat, i: nat) returns (ok: bool)
      requires Valid() && |textOutList| > 0 && m < maxMode == |table.rows| && i < |textOutList| == |table.rows[m]|
      modifies ({textOutList[i]})`mode
      ensures ok <==> Takes(textOutList[i], table.rows[m][i])
      ensures textOutList[i].mode == if ok then table.rows[m][i] else old(textOutList[i].mode)
    {
      hide Grid, Padded, Agrees, LowAgrees;
      MapEntry(m, i);
      ok := textOutList[i].SetMode(textOutModeMap[textOutListCount * m + i]);
    }

    method ClearScreens()
      requires currentNumberOfConsoles == |textOutList|
      modifies (set d | d in textOutList)`cleared
      ensures forall d | d in textOutList :: d.cleared > old(d.cleared)
    {
      var index := 0;
      while index < currentNumberOfConsoles
        invariant index <= |textOutList|
        invariant forall d | d in textOutList :: d.cleared >= old(d.cleared)
        invariant forall k :: 0 <= k < index ==> textOutList[k].cleared > old(textOutList[k].cleared)
        modifies (set d | d in textOutList)`cleared
      {
        textOutList[index].ClearScreen();
        index := index + 1;
      }
    }

    /** Room for more columns. */
    method GrowColumns()
      requires Valid() && |textOutList| > 0 && |textOutList| == textOutListCount
      modifies this`textOutListCount, this`textOutModeMap
      ensures Valid() && fresh(textOutModeMap)
      ensures textOutListCount == old(textOutListCount) + CONSOLE_SPLITTER_ALLOC_UNIT
    {
      hide Grid;
      textOutListCount := textOutListCount + CONSOLE_SPLITTER_ALLOC_UNIT;
      GrowMapTable();
      RegrownPadded(table.rows, |textOutList|, textOutListCount - CONSOLE_SPLITTER_ALLOC_UNIT, textOutListCount);
    }

    /** Drop the virtual modes that a table of flags marks with -1. */
    method Narrow(mapTable: array<int>)
      requires Valid() && |textOutList| > 0 && mapTable.Length == maxMode && mapTable != textOutModeMap
      modifies this`maxMode, this`mode, this`table, textOutModeMap
      ensures Valid() && table == Narrowed(old(table), mapTable[..])
      ensures mode == Renumber(mapTable[..], old(mode))
    {
      hide Grid, Padded, Agrees, LowAgrees, Kept, Keep, Renumber;
      ghost var flags := mapTable[..];
      forall k | 0 <= k < maxMode
        ensures At(0, 1, k) < mapTable.Length && mapTable[At(0, 1, k)] == flags[k]
      {
      }
      maxMode, mode := GetIntersection(textOutModeMap, mapTable, 0, textOutListCount, 1, maxMode, mode, flags);
      PaddedKeep(table.rows, flags, |textOutList|, textOutListCount);
      KeepWide(table.rows, flags, |textOutList|);
      Fits(maxMode, queryData.Length, textOutListCount);
      KeepAgrees(table, ModesOf(textOutList), flags);
      table := Narrowed(table, flags);
    }

    /** The other splitter's buffers are not ours. */
    ghost predicate Apart(peer: TextOutSplitter)
      reads this, peer
    {
      this != peer && queryData != peer.queryData && (textOutModeMap == null || textOutModeMap != peer.textOutModeMap)
    }

    /** A narrowed splitter that has lost its current mode goes to mode 0, and asks its consoles for it. */
    method NarrowAndSettle(mapTable: array<int>)
      requires Valid() && |textOutList| > 0 && mapTable.Length == maxMode && mapTable != textOutModeMap
      modifies this`maxMode, this`mode, this`table, textOutModeMap, (set d | d in textOutList)
      ensures Valid() && table == Narrowed(old(table), mapTable[..])
      ensures mode == NotBelow0(Renumber(mapTable[..], old(mode)))
      ensures forall d | d in textOutList ::
        d.mode == Settled(textOutList, table, Renumber(mapTable[..], old(mode)), d, old(d.mode))
    {
      hide Narrowed, Renumber, Shows, ModeSet, Agrees, LowAgrees;
      Narrow(mapTable);
      TableFacts();
      RowWide(0);
      if mode < 0 {
        var _ := SetMode(0);
      }
    }

    // Columns for at least one console more.
    method MakeRoom()
      requires Valid()
      modifies this`textOutListCount, this`textOutModeMap
      ensures Valid() && |textOutList| < textOutListCount
      ensures textOutModeMap == old(textOutModeMap) || fresh(textOutModeMap)
    {
      hide Agrees, Shows, Honest;
      while currentNumberOfConsoles >= textOutListCount
        invariant Valid() && (textOutModeMap == old(textOutModeMap) || fresh(textOutModeMap))
        decreases |textOutList| - textOutListCount
        modifies this`textOutListCount, this`textOutModeMap
      {
        GrowColumns();
      }
    }

    /** Extend the list, the map and the virtual modes by a console. */
    method AddLocal(textOut: TextDevice)
      requires Valid() && Honest(textOut.modes)
      modifies this, textOutModeMap, queryData
      ensures Valid() && textOutList == old(textOutList) + [textOut]
      ensures table == Extended(old(textOutList), old(table), textOut.modes)
      ensures mode == ExtendedMode(old(textOutList), old(table), textOut.modes, old(mode))
      ensures textOutModeMap == old(textOutModeMap) || fresh(textOutModeMap)
      ensures queryData == old(queryData) || fresh(queryData)
    {
      hide FirstTable, SyncTable, Agrees, LowAgrees, Shows, Honest, ScanTo, Renumber;
      MakeRoom();
      ghost var devs := ModesOf(textOutList);
      if currentNumberOfConsoles == 0 {
        AddOutputMode(textOut);
        table := FirstTable(textOut.modes);
        FirstAgrees(textOut.modes);
        assert [textOut.modes] == devs + [textOut.modes];
      } else {
        AgreesIndexed(table, devs);
        SyncOutputMode(textOut, table);
        SyncAgrees(table, devs, textOut.modes);
        table := SyncTable(table, textOut.modes);
      }
      textOutList := textOutList + [textOut];
      assert ModesOf(textOutList) == devs + [textOut.modes];
      currentNumberOfConsoles := currentNumberOfConsoles + 1;
      ShowsFacts(table, |textOutList|);
    }

    /** Narrow both splitters when the scan of their lists finds a common console. */
    method ShareWith(peer: TextOutSplitter, isConOut: bool, behind: Memory)
      requires Valid() && peer.Valid() && Apart(peer) && |textOutList| > 0
      modifies this`maxMode, this`mode, this`table, textOutModeMap
      modifies peer`maxMode, peer`mode, peer`table, peer.textOutModeMap
      modifies (set d | d in textOutList), (set d | d in peer.textOutList)
      ensures Valid() && peer.Valid() && Apart(peer)
      ensures Shared(this, peer, isConOut, behind, old(table), old(peer.table), old(mode), old(peer.mode))
    {
      hide Grid, Padded, Agrees, LowAgrees, Shows, Scanned, Renumber, CommonTo, Narrowed, Settled;
      ScannedSome(textOutList, peer.textOutList, isConOut, behind);
      if |peer.textOutList| > 0 { TableFacts(); peer.TableFacts(); }
      if isConOut {
        SyncShared(this, peer, behind);
      } else {
        SyncShared(peer, this, behind);
      }
    }

    /** Add a console, and narrow both splitters when the scan of their lists finds a common console. */
    method AddDevice(textOut: TextDevice, peer: TextOutSplitter, isConOut: bool, behind: Memory)
      requires Valid() && peer.Valid() && Apart(peer) && Honest(textOut.modes)
      modifies this, textOutModeMap, queryData
      modifies peer`maxMode, peer`mode, peer`table, peer.textOutModeMap
      modifies (set d | d in textOutList), textOut, (set d | d in peer.textOutList)
      ensures Valid() && peer.Valid() && Apart(peer) && textOutList == old(textOutList) + [textOut]
      ensures Shared(this, peer, isConOut, behind,
                     Extended(old(textOutList), old(table), textOut.modes), old(peer.table),
                     ExtendedMode(old(textOutList), old(table), textOut.modes, old(mode)), old(peer.mode))
    {
      hide Grid, Padded, Agrees, LowAgrees, Shows, Extended, ExtendedMode, Found, BothNarrowed, AskedMode;
      AddLocal(textOut);
      ShareWith(peer, isConOut, behind);
    }

    /** Start the table over: the first console's modes, then every other console one by one. */
    method Rebuild()
      requires |textOutList| > 0 && CONSOLE_SPLITTER_ALLOC_UNIT <= textOutListCount && 32 <= queryData.Length
      requires |textOutList| <= textOutListCount && forall d | d in textOutList :: Honest(d.modes)
      modifies this`maxMode, this`mode, this`queryData, this`textOutModeMap, this`currentNumberOfConsoles, this`table
      modifies queryData
      ensures Valid() && table == TableOf(ModesOf(textOutList))
      ensures mode == RebuiltMode(ModesOf(textOutList), old(mode))
      ensures fresh(textOutModeMap) && (queryData == old(queryData) || fresh(queryData))
    {
      hide FirstTable, SyncTable, Shows, Agrees, LowAgrees, TableOf, RebuiltMode, ScanTo, Renumber, Honest;
      ghost var devs := ModesOf(textOutList);
      forall k | 0 <= k < queryData.Length {
        queryData[k] := NOWHERE;
      }
      textOutModeMap := null;
      AddOutputMode(textOutList[0]);
      TableOfFirst(devs[0]);
      RebuiltModeFirst(devs[0], mode);
      assert devs[..1] == [devs[0]];
      var index := 1;
      currentNumberOfConsoles := 1;
      while index < |textOutList|
        invariant 1 <= index <= |textOutList| && currentNumberOfConsoles == index
        invariant Shows(TableOf(devs[..index]), index) && mode == RebuiltMode(devs[..index], old(mode))
        invariant fresh(textOutModeMap) && (queryData == old(queryData) || fresh(queryData))
        modifies this`maxMode, this`mode, this`currentNumberOfConsoles, textOutModeMap, queryData
      {
        AgreesIndexed(TableOf(devs[..index]), devs[..index]);
        SyncOutputMode(textOutList[index], TableOf(devs[..index]));
        TableOfNext(devs[..index], devs[index]);
        RebuiltModeNext(devs[..index], devs[index], old(mode));
        assert devs[..index + 1] == devs[..index] + [devs[index]];
        index := index + 1;
        currentNumberOfConsoles := currentNumberOfConsoles + 1;
      }
      assert devs[..index] == devs;
      table := TableOf(devs);
      ShowsFacts(table, |textOutList|);
    }

    /** The position of a console in the list, or the length of the list. */
    method IndexOf(textOut: TextDevice) returns (k: nat)
      ensures k == Place(textOutList, textOut)
    {
      k := 0;
      while k < |textOutList|
        invariant k <= |textOutList| && Place(textOutList, textOut) == k + Place(textOutList[k..], textOut)
      {
        if textOutList[k] == textOut {
          return;
        }
        assert textOutList[k..][1..] == textOutList[k + 1..];
        k := k + 1;
      }
    }

    /** Drop place k of the list and start over with the survivors. */
    method RemoveLocal(k: nat)
      requires Valid() && k < |textOutList| && |textOutList| > 1
      modifies this, queryData
      ensures Valid() && textOutList == old(textOutList[..k] + textOutList[k + 1..])
      ensures table == TableOf(ModesOf(textOutList)) && mode == RebuiltMode(ModesOf(textOutList), old(mode))
      ensures fresh(textOutModeMap) && (queryData == old(queryData) || fresh(queryData))
    {
      hide Agrees, LowAgrees, Shows, TableOf, RebuiltMode, Honest;
      textOutList := textOutList[..k] + textOutList[k + 1..];
      Rebuild();
    }

    /** Back to one 40 by 12 mode when the only console goes. */
    method RemoveLast()
      requires Valid() && |textOutList| == 1
      modifies this, queryData
      ensures Valid() && textOutList == [] && maxMode == 1 && mode == 0
      ensures textOutModeMap == old(textOutModeMap) && queryData == old(queryData)
    {
      FirstEntryZero();
      textOutList := [];
      currentNumberOfConsoles := 0;
      maxMode := 1;
      queryData[0] := Geometry(40, 12);
      mode := 0;
    }

    /** Remove a console. The survivors' table is rebuilt from nothing, so it is the table of adding them in
        order to an empty splitter; with no survivor the splitter is back to one 40 by 12 mode. The current mode number
        is then taken for one of the first survivor's own modes. */
    method DeleteDevice(textOut: TextDevice, peer: TextOutSplitter, isConOut: bool, behind: Memory)
      returns (status: Status)
      requires Valid() && peer.Valid() && Apart(peer)
      modifies this, queryData
      modifies peer`maxMode, peer`mode, peer`table, peer.textOutModeMap
      modifies (set d | d in textOutList), (set d | d in peer.textOutList)
      ensures Valid() && peer.Valid() && Apart(peer)
      ensures status == if textOut in old(textOutList) then Success else NotFound
      ensures status == NotFound ==>
        textOutList == old(textOutList) && table == old(table) && mode == old(mode)
      ensures status == Success ==> textOutList == Without(old(textOutList), textOut)
      ensures status == Success && |textOutList| == 0 ==> maxMode == 1 && mode == 0
      ensures status == NotFound || |textOutList| == 0 ==>
        && peer.table == old(peer.table) && peer.mode == old(peer.mode)
        && forall d | d in old(textOutList) || d in peer.textOutList :: d.mode == old(d.mode)
      ensures status == Success && |textOutList| > 0 ==>
        Shared(this, peer, isConOut, behind, TableOf(ModesOf(textOutList)), old(peer.table),
               RebuiltMode(ModesOf(textOutList), old(mode)), old(peer.mode))
    {
      hide Agrees, LowAgrees, Shows, TableOf, Found, RebuiltMode, BothNarrowed, AskedMode;
      var k := IndexOf(textOut);
      PlaceIn(textOutList, textOut);
      if k == |textOutList| {
        return NotFound;
      }
      if |textOutList| == 1 {
        RemoveLast();
        return Success;
      }
      RemoveLocal(k);
      ShareWith(peer, isConOut, behind);
      status := Success;
    }

    lemma FirstEntryZero()
      requires Valid() && |textOutList| > 0
      ensures textOutModeMap != null && textOutModeMap.Length > 0 && textOutModeMap[0] == 0
    {
      MapEntry(0, 0);
    }
  }

  // ----- what asking every console of a list for its entry of a row leads to -----

  predicate Takes(d: TextDevice, n: int) { 0 <= n < |d.modes| && d.modes[n].Answers? && n !in d.refuses }

  ghost predicate AllTake(list: seq<TextDevice>, row: seq<int>) {
    forall i :: 0 <= i < |list| && i < |row| ==> Takes(list[i], row[i])
  }

  // The mode of console d once the first n places of the list have been asked, when it was in mode was before.
  function ModeSetTo(list: seq<TextDevice>, row: seq<int>, n: nat, d: TextDevice, was: int): int
    requires n <= |list| == |row|
  {
    if n == 0 then was
    else if list[n - 1] == d && Takes(d, row[n - 1]) then row[n - 1]
    else ModeSetTo(list, row, n - 1, d, was)
  }

  function ModeSet(list: seq<TextDevice>, row: seq<int>, d: TextDevice, was: int): int
    requires |list| == |row|
  {
    ModeSetTo(list, row, |list|, d, was)
  }

  // The mode of console d once a splitter whose current mode has become m has gone to mode 0 when that was lost.
  function Settled(list: seq<TextDevice>, t: Table, m: int, d: TextDevice, was: int): int {
    if m < 0 && |t.rows| > 0 && |t.rows[0]| == |list| then ModeSet(list, t.rows[0], d, was) else was
  }

  lemma SettledApart()
    ensures forall list: seq<TextDevice>, t, m, d, was :: d !in list ==> Settled(list, t, m, d, was) == was
  {
    forall list: seq<TextDevice>, row: seq<int>, d, was | d !in list && |list| == |row|
      ensures ModeSet(list, row, d, was) == was
    {
      ModeSetIs(list, row, |list|, d, was);
    }
  }

  /** The mode of console d after two splitters have been narrowed, the console output before the error output. */
  ghost function AskedMode(me: TextOutSplitter, peer: TextOutSplitter, isConOut: bool, mine: Table, theirs: Table,
                           m: int, n: int, d: TextDevice, was: int): int
    requires Indexed(mine) && Indexed(theirs)
    reads me, peer
  {
    if isConOut then
      var c := CommonTo(mine, theirs, |mine.rows|);
      Settled(peer.textOutList, peer.table, Renumber(c.b, n), d,
              Settled(me.textOutList, me.table, Renumber(c.a, m), d, was))
    else
      var c := CommonTo(theirs, mine, |theirs.rows|);
      Settled(me.textOutList, me.table, Renumber(c.b, m), d,
              Settled(peer.textOutList, peer.table, Renumber(c.a, n), d, was))
  }

  /** A console that is in the list in one place. */
  ghost predicate Once(list: seq<TextDevice>, i: nat)
    requires i < |list|
  {
    forall k :: 0 <= k < |list| && k != i ==> list[k] != list[i]
  }

  /** The mode is the entry of the last place of the console whose entry it takes, and the old one if there is none. */
  lemma {:induction false} ModeSetIs(list: seq<TextDevice>, row: seq<int>, n: nat, d: TextDevice, was: int)
    requires n <= |list| == |row|
    ensures (forall i :: 0 <= i < n && list[i] == d ==> !Takes(d, row[i])) ==> ModeSetTo(list, row, n, d, was) == was
    ensures forall i :: 0 <= i < n && list[i] == d && Takes(d, row[i])
                        && (forall k :: i < k < n && list[k] == d ==> !Takes(d, row[k])) ==>
              ModeSetTo(list, row, n, d, was) == row[i]
    ensures ModeSetTo(list, row, n, d, was) == was
            || exists i :: 0 <= i < n && list[i] == d && Takes(d, row[i]) && ModeSetTo(list, row, n, d, was) == row[i]
  {
    if n > 0 {
      ModeSetIs(list, row, n - 1, d, was);
    }
  }

  lemma SetOnce(list: seq<TextDevice>, row: seq<int>, i: nat, was: int)
    requires i < |list| == |row| && Once(list, i)
    ensures ModeSet(list, row, list[i], was) == if Takes(list[i], row[i]) then row[i] else was
  {
    hide Takes;
    ModeSetIs(list, row, |list|, list[i], was);
  }

  /** Whether a console is to show the geometry of a virtual mode: always from mode 2 on, and for modes 0 and 1 when it
      has the geometry, provided that mode 1 is reported and is not mode 0 over again. */
  ghost predicate HasRow(t: Table, d: ModeList, m: nat)
    requires Indexed(t) && m < |t.rows|
  {
    var g := GeometryAt(t, m);
    m >= 2 || (Answers(g) in d && (m == 0 || (g != NOWHERE && g != GeometryAt(t, 0))))
  }

  lemma HasRowAgrees(t: Table, devs: seq<ModeList>, m: nat, i: nat)
    requires Agrees(t, devs) && m < |t.rows| && i < |devs| && HasRow(t, devs[i], m) && (m < 2 ==> LowAgrees(t, devs))
    ensures i < |t.rows[m]| && EntryAgrees(t, devs[i], m, i)
  {
    hide LowAgrees;
    if m < 2 {
      LowModeAgrees(t, devs, m, i);
    }
  }

  lemma SetAgreed(t: Table, list: seq<TextDevice>, m: nat, i: nat, was: int)
    requires Agrees(t, ModesOf(list)) && LowAgrees(t, ModesOf(list)) && m < |t.rows| && i < |list| == |t.rows[m]|
    requires HasRow(t, list[i].modes, m) && t.rows[m][i] !in list[i].refuses
    ensures var n := ModeSet(list, t.rows[m], list[i], was);
      0 <= n < |list[i].modes| && list[i].modes[n] == Answers(GeometryAt(t, m))
  {
    hide Agrees, LowAgrees, HasRow;
    var devs, d := ModesOf(list), list[i];
    AgreesIndexed(t, devs);
    forall k | 0 <= k < |list| && list[k] == d
      ensures 0 <= t.rows[m][k] < |d.modes| && d.modes[t.rows[m][k]] == Answers(GeometryAt(t, m))
    {
      assert devs[k] == d.modes;
      HasRowAgrees(t, devs, m, k);
    }
    LastTaker(list, t.rows[m], |list|, d, was, i);
  }

  // When some place takes its entry the mode is an entry that was taken.
  lemma {:induction false} LastTaker(list: seq<TextDevice>, row: seq<int>, n: nat, d: TextDevice, was: int, i: nat)
    requires i < n <= |list| == |row| && list[i] == d && Takes(d, row[i])
    ensures exists k :: 0 <= k < n && list[k] == d && Takes(d, row[k]) && ModeSetTo(list, row, n, d, was) == row[k]
  {
    if !(list[n - 1] == d && Takes(d, row[n - 1])) {
      LastTaker(list, row, n - 1, d, was, i);
    }
  }

  function Place(list: seq<TextDevice>, d: TextDevice): (k: nat)
    ensures k <= |list|
  {
    if list == [] || list[0] == d then 0 else 1 + Place(list[1..], d)
  }

  lemma {:induction false} PlaceIn(list: seq<TextDevice>, d: TextDevice)
    ensures Place(list, d) < |list| <==> d in list
    ensures d in list ==> list[Place(list, d)] == d
    ensures forall j :: 0 <= j < Place(list, d) ==> list[j] != d
  {
    if list != [] && list[0] != d {
      PlaceIn(list[1..], d);
      assert list == [list[0]] + list[1..];
    }
  }

  /** The list without the first occurrence of a console. */
  function Without(list: seq<TextDevice>, d: TextDevice): seq<TextDevice> {
    var k := Place(list, d);
    if k < |list| then list[..k] + list[k + 1..] else list
  }

  /** The current mode number after the table is rebuilt console by console. */
  ghost function RebuiltMode(devs: seq<ModeList>, mode: int): int
    requires |devs| >= 1 && Honest(devs[0])
  {
    if |devs| == 1 then mode
    else
      var before, d := devs[..|devs| - 1], devs[|devs| - 1];
      Renumber(ScanTo(TableOf(before), d, |d|).column, RebuiltMode(before, mode))
  }

  lemma RebuiltModeFirst(d: ModeList, mode: int)
    requires Honest(d)
    ensures RebuiltMode([d], mode) == mode
  {
  }

  lemma RebuiltModeNext(devs: seq<ModeList>, d: ModeList, mode: int)
    requires |devs| >= 1 && Honest(devs[0])
    ensures Indexed(TableOf(devs))
    ensures RebuiltMode(devs + [d], mode) == Renumber(ScanTo(TableOf(devs), d, |d|).column, RebuiltMode(devs, mode))
  {
    assert (devs + [d])[..|devs|] == devs;
  }

  /** After a removal the current mode is the row of the first survivor's own mode of the number that was current, or -1
      when that mode is not offered. */
  lemma {:induction false} RebuiltModeRow(devs: seq<ModeList>, mode: nat)
    requires |devs| >= 1 && Honest(devs[0]) && mode < |devs[0]|
    ensures var t, m := TableOf(devs), RebuiltMode(devs, mode);
      if Offers(t, mode) then 0 <= m < |t.rows| && t.rows[m][0] == mode else m == -1
  {
    if |devs| > 1 {
      var before, d := devs[..|devs| - 1], devs[|devs| - 1];
      RebuiltModeRow(before, mode);
      RebuiltModeStep(TableOf(before), before, d, mode, RebuiltMode(before, mode));
    } else {
      assert TableOf(devs).rows[mode][0] == mode;
    }
  }

  lemma RebuiltModeStep(t: Table, devs: seq<ModeList>, d: ModeList, mode: nat, m: int)
    requires Agrees(t, devs) && if Offers(t, mode) then 0 <= m < |t.rows| && t.rows[m][0] == mode else m == -1
    ensures Agrees(SyncTable(t, d), devs + [d])
    ensures var t', m' := SyncTable(t, d), Renumber(ScanTo(t, d, |d|).column, m);
      if Offers(t', mode) then 0 <= m' < |t'.rows| && t'.rows[m'][0] == mode else m' == -1
  {
    hide ScanTo, Kept, Renumber;
    SyncAgrees(t, devs, d);
    SyncRows(t, d);
    var flags := ScanTo(t, d, |d|).column;
    var keep := Kept(flags, |t.rows|);
    var t' := SyncTable(t, d);
    if m == -1 {
      RenumberGone(flags);
      forall p | 0 <= p < |t'.rows|
        ensures t'.rows[p][0] != mode
      {
        assert t.rows[keep[p]][0] == t'.rows[p][0];
      }
    } else {
      RenumberSameRow(t.rows, flags, m);
      KeptExactly(flags, |t.rows|);
      if m >= 2 && flags[m] == -1 {
        forall p | 0 <= p < |t'.rows|
          ensures t'.rows[p][0] != mode
        {
          assert keep[p] in keep && keep[p] != m;
        }
      } else {
        RenumberPlace(flags, m);
        var m' := Renumber(flags, m);
        assert t'.rows[m'][0] == t.rows[m][0];
      }
    }
  }

  lemma RenumberGone(flags: seq<int>)
    ensures Renumber(flags, -1) == -1
  {
  }

  lemma RenumberPlace(flags: seq<int>, m: nat)
    requires m < |flags| && (m < 2 || flags[m] != -1)
    ensures var keep := Kept(flags, |flags|); var p := Renumber(flags, m); 0 <= p < |keep| && keep[p] == m
  {
    KeptPlace(flags, |flags|, m);
  }

  /** The table after one more console, from an empty splitter or from a table. */
  ghost function Extended(list: seq<TextDevice>, t: Table, d: ModeList): Table
    requires |list| > 0 ==> Indexed(t)
  {
    if |list| == 0 then FirstTable(d) else SyncTable(t, d)
  }

  /** And the current mode number. */
  ghost function ExtendedMode(list: seq<TextDevice>, t: Table, d: ModeList, mode: int): int
    requires |list| > 0 ==> Indexed(t)
  {
    if |list| == 0 then mode else Renumber(ScanTo(t, d, |d|).column, mode)
  }

  /** What becomes of two splitters with tables mine and theirs and current modes m and n when the scan for a common
      console has been made: both narrowed and their consoles asked as AskedMode says, or nothing. */
  twostate predicate Shared(me: TextOutSplitter, peer: TextOutSplitter, isConOut: bool, behind: Memory,
                            mine: Table, theirs: Table, m: int, n: int)
    reads me, peer, me.textOutList, peer.textOutList
  {
    if Found(me.textOutList, peer.textOutList, isConOut, behind) then
      && BothNarrowed(me, peer, isConOut, mine, theirs, m, n)
      && forall d | d in me.textOutList + peer.textOutList && old(allocated(d)) ::
           d.mode == AskedMode(me, peer, isConOut, mine, theirs, m, n, d, old(d.mode))
    else
      && me.table == mine && me.mode == m && peer.table == theirs && peer.mode == n
      && forall d | d in me.textOutList + peer.textOutList && old(allocated(d)) ::
           d.mode == old(d.mode)
  }

  /** Both splitters have lost what is not common to tables mine and theirs, and their current modes m and n are
      renumbered, or 0 when lost. */
  ghost predicate BothNarrowed(me: TextOutSplitter, peer: TextOutSplitter, isConOut: bool, mine: Table, theirs: Table,
                               m: int, n: int)
    reads me, peer
  {
    Indexed(mine) && Indexed(theirs) &&
    if isConOut then
      var c := CommonTo(mine, theirs, |mine.rows|);
      && me.table == Narrowed(mine, c.a) && peer.table == Narrowed(theirs, c.b)
      && me.mode == NotBelow0(Renumber(c.a, m)) && peer.mode == NotBelow0(Renumber(c.b, n))
    else
      var c := CommonTo(theirs, mine, |theirs.rows|);
      && me.table == Narrowed(mine, c.b) && peer.table == Narrowed(theirs, c.a)
      && me.mode == NotBelow0(Renumber(c.b, m)) && peer.mode == NotBelow0(Renumber(c.a, n))
  }

  /** The loops that compare the virtual modes of the two splitters; both tables of flags start as -1. */
  method MarkCommon(conOut: TextOutSplitter, stdErr: TextOutSplitter, conOutMapTable: array<int>,
                    stdErrMapTable: array<int>)
    requires conOut.Valid() && stdErr.Valid() && |conOut.textOutList| > 0 && |stdErr.textOutList| > 0
    requires conOutMapTable.Length == conOut.maxMode && stdErrMapTable.Length == stdErr.maxMode
    requires conOutMapTable != stdErrMapTable
    requires conOutMapTable != conOut.textOutModeMap && conOutMapTable != stdErr.textOutModeMap
    requires stdErrMapTable != conOut.textOutModeMap && stdErrMapTable != stdErr.textOutModeMap
    requires forall k :: 0 <= k < conOutMapTable.Length ==> conOutMapTable[k] == -1
    requires forall k :: 0 <= k < stdErrMapTable.Length ==> stdErrMapTable[k] == -1
    modifies conOutMapTable, stdErrMapTable
    ensures var c := CommonTo(conOut.table, stdErr.table, |conOut.table.rows|);
      conOutMapTable[..] == c.a && stdErrMapTable[..] == c.b
  {
    hide Agrees, TextOutSplitter.Shows, CommonTo;
    conOut.TableFacts();
    stdErr.TableFacts();
    ghost var a, b := conOut.table, stdErr.table;
    CommonStart(a, b);
    assert conOutMapTable[..] == seq(|a.rows|, _ => -1) && stdErrMapTable[..] == seq(|b.rows|, _ => -1);
    var mode := 0;
    while mode < conOut.maxMode
      invariant mode <= conOut.maxMode
      invariant conOutMapTable[..] == CommonTo(a, b, mode).a && stdErrMapTable[..] == CommonTo(a, b, mode).b
      modifies conOutMapTable, stdErrMapTable
    {
      CommonStep(a, b, mode);
      var g := conOut.RowGeometry(mode);
      var index := stdErr.FirstRow(g);
      if index < stdErr.maxMode {
        conOutMapTable[mode] := 1;
        stdErrMapTable[index] := 1;
      }
      mode := mode + 1;
    }
  }

  /** When a console is in both lists, keep in each splitter only what both have, and put a splitter
      that has lost its current mode into mode 0. */
  method SyncShared(conOut: TextOutSplitter, stdErr: TextOutSplitter, behind: Memory)
    requires conOut.Valid() && stdErr.Valid() && conOut.Apart(stdErr)
    modifies conOut`maxMode, conOut`mode, conOut`table, conOut.textOutModeMap
    modifies stdErr`maxMode, stdErr`mode, stdErr`table, stdErr.textOutModeMap
    modifies (set d | d in conOut.textOutList), (set d | d in stdErr.textOutList)
    ensures conOut.Valid() && stdErr.Valid() && conOut.Apart(stdErr)
    ensures Shared(conOut, stdErr, true, behind,
                   old(conOut.table), old(stdErr.table), old(conOut.mode), old(stdErr.mode))
  {
    hide Agrees, LowAgrees, CommonTo, Narrowed, Renumber, TextOutSplitter.Shows, Scanned, Settled;
    ScannedSome(conOut.textOutList, stdErr.textOutList, true, behind);
    var found := FindShared(conOut.textOutList, stdErr.textOutList, behind);
    if !found {
      return;
    }
    conOut.TableFacts();
    stdErr.TableFacts();
    var conOutMapTable := new int[conOut.maxMode](_ => -1);
    var stdErrMapTable := new int[stdErr.maxMode](_ => -1);
    MarkCommon(conOut, stdErr, conOutMapTable, stdErrMapTable);
    conOut.NarrowAndSettle(conOutMapTable);
    stdErr.NarrowAndSettle(stdErrMapTable);
    SettledApart();
  }

  // ----- the scan for a common console -----

  // What lies behind a list of consoles in memory.
  type Memory = nat -> TextDevice?

  function Behind(list: seq<TextDevice>, behind: Memory, k: nat): TextDevice? {
    if k < |list| then list[k] else behind(k)
  }

  /** What the scan finds: it compares console i of the first list with the places from i times the length of the
      second list on, since its pointer into that list is never set back. */
  ghost predicate Scanned(conOut: seq<TextDevice>, stdErr: seq<TextDevice>, behind: Memory) {
    exists i, j :: 0 <= i < |conOut| && 0 <= j < |stdErr| && Meets(conOut, stdErr, behind, i, j)
  }

  ghost predicate Meets(conOut: seq<TextDevice>, stdErr: seq<TextDevice>, behind: Memory, i: nat, j: nat)
    requires i < |conOut|
  {
    conOut[i] == Behind(stdErr, behind, i * |stdErr| + j)
  }

  method FindShared(conOut: seq<TextDevice>, stdErr: seq<TextDevice>, behind: Memory) returns (found: bool)
    ensures found <==> Scanned(conOut, stdErr, behind)
  {
    var indexi, at := 0, 0;
    found := false;
    while indexi < |conOut| && !found
      invariant indexi <= |conOut| && (!found ==> at == indexi * |stdErr|)
      invariant found ==> Scanned(conOut, stdErr, behind)
      invariant !found ==> forall i, j :: 0 <= i < indexi && 0 <= j < |stdErr| ==> !Meets(conOut, stdErr, behind, i, j)
    {
      var indexj := 0;
      while indexj < |stdErr|
        invariant indexj <= |stdErr| && at == indexi * |stdErr| + indexj && !found
        invariant forall j :: 0 <= j < indexj ==> !Meets(conOut, stdErr, behind, indexi, j)
      {
        if conOut[indexi] == Behind(stdErr, behind, at) {
          assert Meets(conOut, stdErr, behind, indexi, indexj);
          found := true;
          break;
        }
        indexj, at := indexj + 1, at + 1;
      }
      indexi := indexi + 1;
    }
  }

  ghost predicate Found(mine: seq<TextDevice>, theirs: seq<TextDevice>, isConOut: bool, behind: Memory) {
    if isConOut then Scanned(mine, theirs, behind) else Scanned(theirs, mine, behind)
  }

  lemma ScannedSome(mine: seq<TextDevice>, theirs: seq<TextDevice>, isConOut: bool, behind: Memory)
    ensures Found(mine, theirs, isConOut, behind) ==> mine != [] && theirs != []
  {
  }

  ghost predicate Share(conOut: seq<TextDevice>, stdErr: seq<TextDevice>) { exists d | d in conOut :: d in stdErr }

  /** The lists on which the scan cannot go past the live consoles before it has its answer. */
  predicate ScanSafe(conOut: seq<TextDevice>, stdErr: seq<TextDevice>) {
    |conOut| <= 1 || stdErr == [] || conOut[0] in stdErr
  }

  lemma ScanSafeRight(conOut: seq<TextDevice>, stdErr: seq<TextDevice>, behind: Memory)
    requires ScanSafe(conOut, stdErr)
    ensures Scanned(conOut, stdErr, behind) <==> Share(conOut, stdErr)
  {
    if conOut != [] && conOut[0] in stdErr {
      var j :| 0 <= j < |stdErr| && stdErr[j] == conOut[0];
      assert Meets(conOut, stdErr, behind, 0, j);
    } else if Scanned(conOut, stdErr, behind) {
      var i, j :| 0 <= i < |conOut| && 0 <= j < |stdErr| && Meets(conOut, stdErr, behind, i, j);
    }
  }

  /** On any other lists there is a memory behind the second that makes the scan give the wrong answer. */
  lemma ScanUnsafeWrong(conOut: seq<TextDevice>, stdErr: seq<TextDevice>) returns (behind: Memory)
    requires !ScanSafe(conOut, stdErr)
    ensures Scanned(conOut, stdErr, behind) <==> !Share(conOut, stdErr)
  {
    var n := |stdErr|;
    if Share(conOut, stdErr) {
      behind := _ => null;
      forall i, j | 0 <= i < |conOut| && 0 <= j < n
        ensures !Meets(conOut, stdErr, behind, i, j)
      {
        if i > 0 {
          Fits(1, i, n);
        }
      }
    } else {
      var d := conOut[1];
      behind := _ => d;
      assert Meets(conOut, stdErr, behind, 1, 0);
    }
  }

  function NotBelow0(mode: int): int { if mode < 0 then 0 else mode }

  ghost predicate InGeometry(d: TextDevice, g: Geometry)
    reads d
  {
    0 <= d.mode < |d.modes| && d.modes[d.mode] == Answers(g)
  }

  // ----- the buffer against the table -----

  lemma ScanToNext(t: Table, d: ModeList, k: nat)
    requires Indexed(t) && k < |d|
    ensures ScanTo(t, d, k + 1) == ScanStep(t, ScanTo(t, d, k), d, k)
  {
  }

  lemma SyncTableIs(t: Table, d: ModeList)
    requires Indexed(t)
    ensures var s := ScanTo(t, d, |d|);
      SyncTable(t, d) == Table(Keep(Widen(t.rows, s.column), s.column), s.query)
  {
  }

  lemma AgreesIndexed(t: Table, devs: seq<ModeList>)
    requires Agrees(t, devs)
    ensures Indexed(t) && |t.rows| <= 0x7FFF_FFFF
  {
  }

  lemma CommonStart(a: Table, b: Table)
    requires Indexed(a) && Indexed(b)
    ensures CommonTo(a, b, 0) == Common(seq(|a.rows|, _ => -1), seq(|b.rows|, _ => -1))
  {
  }

  lemma CommonStep(a: Table, b: Table, k: nat)
    requires Indexed(a) && Indexed(b) && k < |a.rows|
    ensures CommonTo(a, b, k + 1) ==
      var c := CommonTo(a, b, k);
      var p := Find(b, GeometryAt(a, k), 0);
      if p < |b.rows| then Common(c.a[k := 1], c.b[p := 1]) else c
  {
  }

  lemma ScanToZero(t: Table, d: ModeList)
    requires Indexed(t)
    ensures ScanTo(t, d, 0) == Start(t)
  {
  }

  lemma PaddedColumn(rows: seq<seq<int>>, column: seq<int>, c: nat, step: nat)
    requires |rows| == |column| && c < step && forall m :: 0 <= m < |column| ==> column[m] == -1
    ensures Padded(Widen(rows, column), c + 1, step) == Padded(rows, c, step)
  {
    var empty := seq(step - c, _ => -1);
    assert empty == [-1] + seq(step - c - 1, _ => -1);
    assert forall m :: 0 <= m < |rows| ==> Padded(Widen(rows, column), c + 1, step)[m] == Padded(rows, c, step)[m];
  }

  lemma PaddedSet(rows: seq<seq<int>>, column: seq<int>, c: nat, step: nat, r: nat, v: int)
    requires |rows| == |column| && c < step && r < |rows| && |rows[r]| == c
    ensures var g := Padded(Widen(rows, column), c + 1, step);
      && |g[r]| > c && g[r := g[r][c := v]] == Padded(Widen(rows, column[r := v]), c + 1, step)
  {
    var g := Padded(Widen(rows, column), c + 1, step);
    assert g[r][c := v] == Padded(Widen(rows, column[r := v]), c + 1, step)[r];
  }

  lemma RegrownPadded(rows: seq<seq<int>>, width: nat, step: nat, newStep: nat)
    requires width <= step <= newStep && forall m :: 0 <= m < |rows| ==> |rows[m]| == width
    ensures Regrown(Padded(rows, width, step), width, newStep) == Padded(rows, width, newStep)
  {
    forall m | 0 <= m < |rows|
      ensures Regrown(Padded(rows, width, step), width, newStep)[m] == Padded(rows, width, newStep)[m]
    {
      assert Padded(rows, width, step)[m][..width] == rows[m];
    }
  }

  lemma KeepWide(rows: seq<seq<int>>, flags: seq<int>, c: nat)
    requires |rows| == |flags| && forall m :: 0 <= m < |rows| ==> |rows[m]| == c
    ensures var k := Keep(rows, flags);
      |k| == |Kept(flags, |flags|)| <= |rows| && forall m :: 0 <= m < |k| ==> |k[m]| == c
  {
  }

  lemma PaddedEntry(rows: seq<seq<int>>, width: nat, step: nat, m: nat, i: nat)
    requires width <= step && m < |rows| && i < width == |rows[m]|
    ensures |Padded(rows, width, step)[m]| == step && Padded(rows, width, step)[m][i] == rows[m][i]
  {
  }

  lemma FirstEntry(rows: seq<seq<int>>, column: seq<int>, c: nat, step: nat, m: nat)
    requires |rows| == |column| && c < step && m < |rows| && |rows[m]| > 0
    ensures var g := Padded(Widen(rows, column), c + 1, step); |g[m]| > 0 && g[m][0] == rows[m][0]
  {
  }

  lemma PaddedAt(rows: seq<seq<int>>, column: seq<int>, c: nat, step: nat, m: nat)
    requires |rows| == |column| && c < step && m < |rows| && |rows[m]| == c
    ensures var g := Padded(Widen(rows, column), c + 1, step); |g[m]| == step && g[m][c] == column[m]
  {
  }

  lemma KeptWide(rows: seq<seq<int>>, column: seq<int>, c: nat)
    requires |rows| == |column| && forall m :: 0 <= m < |rows| ==> |rows[m]| == c
    ensures var k := Keep(Widen(rows, column), column);
      |k| == |Kept(column, |column|)| <= |rows| && forall m :: 0 <= m < |k| ==> |k[m]| == c + 1
  {
  }

  lemma PaddedKeep(rows: seq<seq<int>>, flags: seq<int>, width: nat, step: nat)
    requires |rows| == |flags| && width <= step
    ensures Keep(Padded(rows, width, step), flags) == Padded(Keep(rows, flags), width, step)
  {
  }

  ghost function FirstColumnTo(n: nat, step: nat, k: nat): (g: seq<seq<int>>)
    requires 0 < step
    ensures |g| == n
  {
    seq(n, m requires 0 <= m < n => if m < k then [m] + seq(step - 1, _ => -1) else seq(step, _ => -1))
  }

  lemma FirstColumnStep(n: nat, step: nat, k: nat)
    requires 0 < step && k < n
    ensures FirstColumnTo(n, step, k)[k := FirstColumnTo(n, step, k)[k][0 := k]] == FirstColumnTo(n, step, k + 1)
  {
    var v: int := k;
    assert seq(step, _ => -1)[0 := v] == [v] + seq(step - 1, _ => -1);
  }

  lemma FirstColumnDone(d: ModeList, step: nat)
    requires 0 < step
    ensures FirstColumnTo(|d|, step, |d|) == Padded(FirstTable(d).rows, 1, step)
    ensures FirstColumnTo(|d|, step, 0) == seq(|d|, _ => seq(step, _ => -1))
  {
  }

  lemma Fits(a: nat, b: nat, step: nat)
    requires a <= b
    ensures a * step <= step * b
  {
    assert step * b == a * step + (b - a) * step;
  }

  lemma StepOver(index: nat, rows: nat, step: nat)
    requires index < rows
    ensures (index + 1) * step == index * step + step <= rows * step
  {
    RowFits(index, rows, step);
  }

  /** The first n columns of a grid, widened with -1 to a new step. */
  ghost function Regrown(g: seq<seq<int>>, n: nat, step: nat): (r: seq<seq<int>>)
    requires n <= step
    ensures |r| == |g|
  {
    seq(|g|, m requires 0 <= m < |g| => (if n <= |g[m]| then g[m][..n] else g[m]) + seq(step - n, _ => -1))
  }

  ghost function RegrownTo(g: seq<seq<int>>, n: nat, step: nat, k: nat): (r: seq<seq<int>>)
    requires n <= step
  {
    seq(|g|, m requires 0 <= m < |g| => if m < k then Regrown(g, n, step)[m] else seq(step, _ => -1))
  }

  lemma RegrownStart(g: seq<seq<int>>, n: nat, step: nat)
    requires n <= step
    ensures RegrownTo(g, n, step, 0) == seq(|g|, _ => seq(step, _ => -1))
  {
  }

  lemma RegrownEnd(g: seq<seq<int>>, n: nat, step: nat)
    requires n <= step
    ensures RegrownTo(g, n, step, |g|) == Regrown(g, n, step)
  {
  }

  lemma RegrownStep(g: seq<seq<int>>, n: nat, step: nat, k: nat)
    requires n <= step && k < |g| && n <= |g[k]|
    ensures |RegrownTo(g, n, step, k)| == |g| && |RegrownTo(g, n, step, k)[k]| == step
    ensures RegrownTo(g, n, step, k)[k := g[k][..n] + RegrownTo(g, n, step, k)[k][n..]] == RegrownTo(g, n, step, k + 1)
  {
    assert g[k][..n] + seq(step, _ => -1)[n..] == Regrown(g, n, step)[k];
  }
}

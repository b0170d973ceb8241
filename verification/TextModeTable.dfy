/** The console splitter's virtual text modes as a value: one row per virtual mode, one column per
    physical console, each entry that console's own mode number; and what adding a console does to it. */
module TextModeTable {

  datatype Geometry = Geometry(columns: nat, rows: nat)

  // What a console answers when asked about one of its modes.
  datatype Reply = Fails | Answers(g: Geometry)

  // Mode numbers are 32-bit signed.
  type ModeList = m: seq<Reply> | |m| <= 0x7FFF_FFFF

  const NOWHERE := Geometry(0, 0)

  // query is indexed by the mode numbers of the first console, that is, by column 0 of rows.
  datatype Table = Table(rows: seq<seq<int>>, query: seq<Geometry>)

  /** A console whose every mode but mode 1 can be queried; mode 0 always exists. */
  predicate Honest(d: ModeList) {
    |d| >= 1 && forall k :: 0 <= k < |d| && k != 1 ==> d[k].Answers?
  }

  // ----- removing rows -----

  /** The rows below k that stay when rows 2 and up with flag -1 are removed. */
  function Kept(flags: seq<int>, k: nat): (s: seq<nat>)
    requires k <= |flags|
    ensures |s| <= k && (k <= 2 ==> |s| == k) && (k >= 2 ==> |s| >= 2)
    ensures forall j :: 0 <= j < |s| ==> s[j] < k && s[j] >= j
  {
    if k == 0 then []
    else if k > 2 && flags[k - 1] == -1 then Kept(flags, k - 1)
    else Kept(flags, k - 1) + [k - 1]
  }

  function Keep<T>(rows: seq<T>, flags: seq<int>): (r: seq<T>)
    requires |rows| == |flags|
  {
    var s := Kept(flags, |flags|);
    seq(|s|, j requires 0 <= j < |s| => rows[s[j]])
  }

  /** Kept lists rows 0 and 1 and then, in order, exactly the later rows whose flag is not -1. */
  lemma {:induction false} KeptExactly(flags: seq<int>, k: nat)
    requires k <= |flags|
    ensures forall i, j :: 0 <= i < j < |Kept(flags, k)| ==> Kept(flags, k)[i] < Kept(flags, k)[j]
    ensures forall r: nat :: r in Kept(flags, k) <==> r < k && (r < 2 || flags[r] != -1)
    ensures forall j :: 0 <= j < 2 && j < |Kept(flags, k)| ==> Kept(flags, k)[j] == j
  {
    if k > 0 {
      KeptExactly(flags, k - 1);
    }
  }

  /** A row that stays is found at the number of kept rows before it. */
  lemma {:induction false} KeptPlace(flags: seq<int>, k: nat, r: nat)
    requires r < k <= |flags| && (r < 2 || flags[r] != -1)
    ensures var p := |Kept(flags, r)|; p < |Kept(flags, k)| && Kept(flags, k)[p] == r
  {
    if r < k - 1 {
      KeptPlace(flags, k - 1, r);
    }
  }

  /** What the current mode number becomes: -1 when its row goes, the row's new number when it stays;
      a number past the table drops by the number of rows removed. */
  function Renumber(flags: seq<int>, mode: int): int {
    if mode < 2 then mode
    else if mode >= |flags| then mode - (|flags| - |Kept(flags, |flags|)|)
    else if flags[mode] == -1 then -1
    else |Kept(flags, mode)|
  }

  /** A mode number in range names the same row afterwards, or is -1 exactly when its row was removed. */
  lemma RenumberSameRow<T>(rows: seq<T>, flags: seq<int>, mode: nat)
    requires |rows| == |flags| && mode < |rows|
    ensures Renumber(flags, mode) == -1 <==> mode >= 2 && flags[mode] == -1
    ensures Renumber(flags, mode) != -1 ==>
      0 <= Renumber(flags, mode) < |Keep(rows, flags)| && Keep(rows, flags)[Renumber(flags, mode)] == rows[mode]
  {
    if mode < 2 || flags[mode] != -1 {
      KeptPlace(flags, |flags|, mode);
    }
  }

  // ----- adding consoles -----

  function FirstTable(d: ModeList): Table {
    Table(seq(|d|, k => [k]),
          seq(|d|, k requires 0 <= k < |d| => if d[k].Answers? then d[k].g else NOWHERE))
  }

  ghost predicate Indexed(t: Table) {
    forall r :: 0 <= r < |t.rows| ==> |t.rows[r]| > 0 && 0 <= t.rows[r][0] < |t.query|
  }

  function GeometryAt(t: Table, r: nat): Geometry
    requires Indexed(t) && r < |t.rows|
  {
    t.query[t.rows[r][0]]
  }

  /** The first row from r on that shows geometry g, or the number of rows. */
  function Find(t: Table, g: Geometry, r: nat): (p: nat)
    requires Indexed(t) && r <= |t.rows|
    ensures r <= p <= |t.rows| && (p < |t.rows| ==> GeometryAt(t, p) == g)
    ensures forall q :: r <= q < p ==> GeometryAt(t, q) != g
    decreases |t.rows| - r
  {
    if r == |t.rows| then r else if GeometryAt(t, r) == g then r else Find(t, g, r + 1)
  }

  // The query data and the new column while a console's modes are walked.
  datatype Scan = Scan(query: seq<Geometry>, column: seq<int>)

  function Start(t: Table): Scan { Scan(t.query, seq(|t.rows|, _ => -1)) }

  /** One mode of the new console: a failing mode 1 blanks mode 1 of the query data and keeps its row;
      an answered mode goes to the first row of that geometry. */
  function ScanStep(t: Table, s: Scan, d: ModeList, k: nat): (s': Scan)
    requires Indexed(t) && |s.query| == |t.query| && |s.column| == |t.rows| && k < |d|
    ensures |s'.query| == |t.query| && |s'.column| == |t.rows|
  {
    if d[k].Fails? then
      if k == 1 then
        Scan(if |s.query| > 1 then s.query[1 := NOWHERE] else s.query,
             if |s.column| > 1 then s.column[1 := 1] else s.column)
      else s
    else
      var r := Find(t.(query := s.query), d[k].g, 0);
      if r < |s.column| then s.(column := s.column[r := k]) else s
  }

  function ScanTo(t: Table, d: ModeList, k: nat): (s: Scan)
    requires Indexed(t) && k <= |d|
    ensures |s.query| == |t.query| && |s.column| == |t.rows|
  {
    if k == 0 then Start(t) else ScanStep(t, ScanTo(t, d, k - 1), d, k - 1)
  }

  function Widen(rows: seq<seq<int>>, column: seq<int>): (r: seq<seq<int>>)
    requires |rows| == |column|
    ensures |r| == |rows|
  {
    seq(|rows|, m requires 0 <= m < |rows| => rows[m] + [column[m]])
  }

  function SyncTable(t: Table, d: ModeList): Table
    requires Indexed(t)
  {
    var s := ScanTo(t, d, |d|);
    Table(Keep(Widen(t.rows, s.column), s.column), s.query)
  }

  // ----- agreement of the virtual modes with every console -----

  /** Every virtual mode from 2 on is, on every console, a mode of the very geometry that querying the
      virtual mode reports; column 0 is strictly increasing and starts with modes 0 and 1. */
  ghost predicate Agrees(t: Table, devs: seq<ModeList>) {
    && |devs| >= 1 && |t.query| == |devs[0]| && 1 <= |t.rows| <= |t.query|
    && (forall m :: 0 <= m < |t.rows| ==> |t.rows[m]| == |devs|)
    && (forall m :: 0 <= m < |t.rows| ==> 0 <= t.rows[m][0] < |t.query|)
    && (forall m, m' :: 0 <= m < m' < |t.rows| ==> t.rows[m][0] < t.rows[m'][0])
    && (forall m :: 0 <= m < 2 && m < |t.rows| ==> t.rows[m][0] == m)
    && (forall m, i :: 2 <= m < |t.rows| && 0 <= i < |devs| ==> EntryAgrees(t, devs[i], m, i))
  }

  ghost predicate EntryAgrees(t: Table, d: ModeList, m: int, i: int)
    requires 0 <= m < |t.rows| && 0 <= i < |t.rows[m]| && 0 <= t.rows[m][0] < |t.query|
  {
    0 <= t.rows[m][i] < |d| && d[t.rows[m][i]] == Answers(t.query[t.rows[m][0]])
  }

  /** The last of the first k modes of a console that answers r, or -1. */
  function LastOf(d: ModeList, r: Reply, k: nat): (j: int)
    requires k <= |d|
    ensures -1 <= j < k && (j >= 0 ==> d[j] == r)
    ensures forall i :: j < i < k ==> d[i] != r
  {
    if k == 0 then -1 else if d[k - 1] == r then k - 1 else LastOf(d, r, k - 1)
  }

  predicate FailsMode1(d: ModeList) { |d| > 1 && d[1].Fails? }

  /** What a console that fails mode 1 has in row 1: 1, unless it answers 0 by 0 for a later mode, which then finds
      the row that was just blanked. */
  function BlankedEntry(g0: Geometry, d: ModeList, k: nat): int
    requires k <= |d|
  {
    var j := LastOf(d, Answers(NOWHERE), k);
    if g0 != NOWHERE && j >= 2 then j else 1
  }

  /** Virtual modes 0 and 1, which are never removed: as long as such a mode is reported and mode 1 is not just mode 0
      over again, its entry for a further console is that console's last mode of its geometry, or -1 exactly when the
      console has none. A console that fails mode 1 keeps mode 1 from being reported. */
  ghost predicate LowAgrees(t: Table, devs: seq<ModeList>)
    requires Agrees(t, devs)
  {
    forall m, i :: 0 <= m < 2 && m < |t.rows| && 0 <= i < |devs| ==> LowEntryAgrees(t, devs[i], m, i)
  }

  ghost predicate LowEntryAgrees(t: Table, d: ModeList, m: int, i: int)
    requires 0 <= m < 2 && m < |t.rows| && 0 <= i < |t.rows[m]| && 0 <= t.rows[m][0] < |t.query|
  {
    var g, e := t.query[t.rows[m][0]], t.rows[m][i];
    && (m == 1 && FailsMode1(d) ==> g == NOWHERE)
    && (if i == 0 then e == m && (m == 0 || g != NOWHERE ==> m < |d| && d[m] == Answers(g))
        else if m == 1 && FailsMode1(d) then e == BlankedEntry(t.query[0], d, |d|)
        else m == 0 || (g != NOWHERE && g != t.query[0]) ==> e == LastOf(d, Answers(g), |d|))
  }

  lemma FirstAgrees(d: ModeList)
    requires Honest(d)
    ensures Agrees(FirstTable(d), [d]) && LowAgrees(FirstTable(d), [d])
  {
  }

  /** Removing rows other than 0 and 1 keeps agreement. */
  lemma KeepAgrees(t: Table, devs: seq<ModeList>, flags: seq<int>)
    requires Agrees(t, devs) && |flags| == |t.rows|
    ensures Agrees(t.(rows := Keep(t.rows, flags)), devs)
    ensures LowAgrees(t, devs) ==> LowAgrees(t.(rows := Keep(t.rows, flags)), devs)
  {
    hide LowAgrees;
    KeptExactly(flags, |flags|);
    var s := Kept(flags, |flags|);
    var t' := t.(rows := Keep(t.rows, flags));
    forall m, i | 2 <= m < |t'.rows| && 0 <= i < |devs|
      ensures EntryAgrees(t', devs[i], m, i)
    {
      assert s[1] == 1 && s[m] > s[1];
      assert EntryAgrees(t, devs[i], s[m], i);
    }
    if LowAgrees(t, devs) {
      KeepLow(t, devs, flags, t');
    }
  }

  lemma KeepLow(t: Table, devs: seq<ModeList>, flags: seq<int>, t': Table)
    requires Agrees(t, devs) && LowAgrees(t, devs) && |flags| == |t.rows|
    requires t' == t.(rows := Keep(t.rows, flags)) && Agrees(t', devs)
    ensures LowAgrees(t', devs)
  {
    hide LastOf, BlankedEntry, FailsMode1;
    KeptExactly(flags, |flags|);
    forall m, i | 0 <= m < 2 && m < |t'.rows| && 0 <= i < |devs|
      ensures LowEntryAgrees(t', devs[i], m, i)
    {
      assert t'.rows[m] == t.rows[m] && LowEntryAgrees(t, devs[i], m, i);
    }
  }

  /** A new column entry of a row from 2 on is -1 or a mode of the row's geometry, at any point of the scan. */
  lemma {:induction false} ScanAgrees(t: Table, devs: seq<ModeList>, d: ModeList, k: nat)
    requires Agrees(t, devs) && k <= |d|
    ensures var s := ScanTo(t, d, k);
      && (forall q :: 0 <= q < |t.query| && q != 1 ==> s.query[q] == t.query[q])
      && (forall m :: 2 <= m < |t.rows| ==> s.query[t.rows[m][0]] == t.query[t.rows[m][0]])
      && (forall m :: 2 <= m < |t.rows| && s.column[m] != -1 ==>
            0 <= s.column[m] < k && d[s.column[m]] == Answers(t.query[t.rows[m][0]]))
  {
    if k > 0 {
      ScanAgrees(t, devs, d, k - 1);
      assert forall m :: 2 <= m < |t.rows| ==> t.rows[1][0] < t.rows[m][0];
    }
  }

  // Only a failing mode 1 changes the query data.
  lemma {:induction false} ScanQuery(t: Table, d: ModeList, k: nat)
    requires Indexed(t) && k <= |d|
    ensures ScanTo(t, d, k).query ==
            if k >= 2 && FailsMode1(d) && |t.query| > 1 then t.query[1 := NOWHERE] else t.query
  {
    if k > 0 {
      ScanQuery(t, d, k - 1);
    }
  }

  ghost predicate ShownFirst(t: Table, r: nat)
    requires Indexed(t) && r < |t.rows|
  {
    forall q :: 0 <= q < r ==> GeometryAt(t, q) != GeometryAt(t, r)
  }

  /** The entry of any row that is the first to show its geometry, and of any later row that shows it again: the new
      console's last mode of that geometry, or -1 exactly when it has none; -1 for the later row. A failing mode 1
      takes row 1 and makes it the one that shows 0 by 0. */
  lemma ScanEntry(t: Table, devs: seq<ModeList>, d: ModeList, r: nat)
    requires Agrees(t, devs) && r < |t.rows|
    ensures var g, e := GeometryAt(t, r), ScanTo(t, d, |d|).column[r];
      && (r == 1 && FailsMode1(d) ==> e == BlankedEntry(t.query[0], d, |d|))
      && (r != 1 && FailsMode1(d) && ShownFirst(t, r) ==>
            e == LastOf(d, Answers(g), if r >= 2 && g == NOWHERE then 2 else |d|))
      && (!FailsMode1(d) ==> e == if ShownFirst(t, r) then LastOf(d, Answers(g), |d|) else -1)
  {
    hide ScanTo;
    if FailsMode1(d) {
      if r == 1 {
        ScanBlanked(t, devs, d, |d|);
      } else if ShownFirst(t, r) {
        ScanEntryTo(t, devs, d, |d|, r);
      }
    } else {
      ScanEntryTo(t, devs, d, |d|, r);
    }
  }

  lemma {:induction false} ScanEntryTo(t: Table, devs: seq<ModeList>, d: ModeList, k: nat, r: nat)
    requires Agrees(t, devs) && k <= |d| && r < |t.rows|
    requires FailsMode1(d) ==> r != 1 && ShownFirst(t, r)
    ensures ScanTo(t, d, k).column[r] ==
            if !ShownFirst(t, r) then -1
            else LastOf(d, Answers(GeometryAt(t, r)),
                        if FailsMode1(d) && r >= 2 && GeometryAt(t, r) == NOWHERE && k > 2 then 2 else k)
  {
    assert Indexed(t);
    if k > 0 {
      hide ShownFirst, ScanTo, Agrees;
      ScanEntryTo(t, devs, d, k - 1, r);
      ScanQuery(t, d, k - 1);
      if d[k - 1].Answers? {
        ScanPlace(t, devs, d, k - 1, d[k - 1].g, r);
      }
      ScanStepAt(t, d, k - 1, r);
    }
  }

  // What one mode does to the entry of a row.
  lemma ScanStepAt(t: Table, d: ModeList, k: nat, r: nat)
    requires Indexed(t) && k < |d| && r < |t.rows|
    ensures ScanTo(t, d, k + 1).column[r] ==
            if d[k].Fails? then if k == 1 && r == 1 then 1 else ScanTo(t, d, k).column[r]
            else if Find(t.(query := ScanTo(t, d, k).query), d[k].g, 0) == r then k
            else ScanTo(t, d, k).column[r]
  {
    assert ScanTo(t, d, k + 1) == ScanStep(t, ScanTo(t, d, k), d, k);
  }

  // Whether a mode of geometry g found at step k goes to row r.
  lemma ScanPlace(t: Table, devs: seq<ModeList>, d: ModeList, k: nat, g: Geometry, r: nat)
    requires Agrees(t, devs) && k <= |d| && r < |t.rows|
    requires FailsMode1(d) ==> r != 1 && ShownFirst(t, r)
    requires ScanTo(t, d, k).query ==
             if k >= 2 && FailsMode1(d) && |t.query| > 1 then t.query[1 := NOWHERE] else t.query
    ensures Find(t.(query := ScanTo(t, d, k).query), g, 0) == r <==>
            g == GeometryAt(t, r) && ShownFirst(t, r) && !(FailsMode1(d) && k >= 2 && r >= 2 && g == NOWHERE)
  {
    hide ScanTo;
    var t' := t.(query := ScanTo(t, d, k).query);
    assert forall q | 0 <= q < |t.rows| && q != 1 :: GeometryAt(t', q) == GeometryAt(t, q) by {
      assert forall q | 2 <= q < |t.rows| :: t.rows[1][0] < t.rows[q][0];
    }
    var p := Find(t', g, 0);
    if FailsMode1(d) && k >= 2 && r >= 2 {
      assert GeometryAt(t', 1) == NOWHERE;
    } else {
      assert forall q | 0 <= q <= r :: GeometryAt(t', q) == GeometryAt(t, q);
    }
  }

  lemma {:induction false} ScanBlanked(t: Table, devs: seq<ModeList>, d: ModeList, k: nat)
    requires Agrees(t, devs) && FailsMode1(d) && 2 <= k <= |d| && |t.rows| > 1
    ensures ScanTo(t, d, k).column[1] == BlankedEntry(t.query[0], d, k)
  {
    if k == 2 {
      ScanTwo(t, d);
    } else {
      ScanBlanked(t, devs, d, k - 1);
      ScanQuery(t, d, k - 1);
      var t' := t.(query := ScanTo(t, d, k - 1).query);
      assert GeometryAt(t', 0) == t.query[0] && GeometryAt(t', 1) == NOWHERE;
      if d[k - 1].Answers? {
        var p := Find(t', d[k - 1].g, 0);
        assert p == 1 <==> d[k - 1].g == NOWHERE && t.query[0] != NOWHERE;
      }
    }
  }

  lemma ScanTwo(t: Table, d: ModeList)
    requires Indexed(t) && FailsMode1(d) && |t.rows| > 1
    ensures ScanTo(t, d, 2).column[1] == 1
  {
    assert ScanTo(t, d, 2) == ScanStep(t, ScanTo(t, d, 1), d, 1);
  }

  lemma SyncAgrees(t: Table, devs: seq<ModeList>, d: ModeList)
    requires Agrees(t, devs)
    ensures Agrees(SyncTable(t, d), devs + [d])
    ensures LowAgrees(t, devs) ==> LowAgrees(SyncTable(t, d), devs + [d])
  {
    hide ScanTo, Kept, LowAgrees;
    ScanAgrees(t, devs, d, |d|);
    SyncRows(t, d);
    var keep := Kept(ScanTo(t, d, |d|).column, |t.rows|);
    var t' := SyncTable(t, d);
    forall m, i | 2 <= m < |t'.rows| && 0 <= i < |devs| + 1
      ensures EntryAgrees(t', (devs + [d])[i], m, i)
    {
      SyncEntryAgrees(t, devs, d, keep[m], i, t', m);
    }
    if LowAgrees(t, devs) {
      SyncLow(t, devs, d);
    }
  }

  lemma SyncLow(t: Table, devs: seq<ModeList>, d: ModeList)
    requires Agrees(t, devs) && LowAgrees(t, devs) && Agrees(SyncTable(t, d), devs + [d])
    ensures LowAgrees(SyncTable(t, d), devs + [d])
  {
    hide ScanTo, Kept, SyncTable, BlankedEntry, LastOf;
    SyncRows(t, d);
    ScanQuery(t, d, |d|);
    var t' := SyncTable(t, d);
    forall m, i | 0 <= m < 2 && m < |t'.rows| && 0 <= i < |devs| + 1
      ensures LowEntryAgrees(t', (devs + [d])[i], m, i)
    {
      assert t'.rows[m] == t.rows[m] + [ScanTo(t, d, |d|).column[m]];
      if i < |devs| {
        assert LowEntryAgrees(t, devs[i], m, i);
      } else {
        ScanEntry(t, devs, d, m);
      }
    }
  }

  lemma SyncRows(t: Table, d: ModeList)
    requires Indexed(t)
    ensures var s := ScanTo(t, d, |d|); var keep := Kept(s.column, |t.rows|); var t' := SyncTable(t, d);
      && |t'.rows| == |keep| && t'.query == s.query
      && (forall m :: 0 <= m < |keep| ==> t'.rows[m] == t.rows[keep[m]] + [s.column[keep[m]]])
      && (forall m :: 2 <= m < |keep| ==> 2 <= keep[m] < |t.rows| && s.column[keep[m]] != -1)
      && (forall m, m' :: 0 <= m < m' < |keep| ==> keep[m] < keep[m'])
      && (forall m :: 0 <= m < 2 && m < |keep| ==> keep[m] == m)
  {
    hide ScanTo;
    var s := ScanTo(t, d, |d|);
    KeptExactly(s.column, |t.rows|);
    var keep := Kept(s.column, |t.rows|);
    forall m | 2 <= m < |keep|
      ensures 2 <= keep[m] < |t.rows| && s.column[keep[m]] != -1
    {
      assert keep[m] in keep && keep[1] < keep[m];
    }
  }

  lemma SyncEntryAgrees(t: Table, devs: seq<ModeList>, d: ModeList, r: int, i: int, t': Table, m: int)
    requires Agrees(t, devs) && 2 <= r < |t.rows| && 0 <= i < |devs| + 1 && 0 <= m < |t'.rows|
    requires var s := ScanTo(t, d, |d|);
      && t'.query == s.query && t'.rows[m] == t.rows[r] + [s.column[r]] && s.column[r] != -1
    ensures EntryAgrees(t', (devs + [d])[i], m, i)
  {
    ScanAgrees(t, devs, d, |d|);
    if i < |devs| {
      assert EntryAgrees(t, devs[i], r, i);
    }
  }

  // ----- the table of a list of consoles -----

  /** The table after adding the consoles of a list one by one to an empty splitter. */
  ghost function TableOf(devs: seq<ModeList>): (t: Table)
    requires |devs| >= 1 && Honest(devs[0])
    ensures Agrees(t, devs) && LowAgrees(t, devs)
  {
    if |devs| == 1 then
      FirstAgrees(devs[0]);
      assert devs == [devs[0]];
      FirstTable(devs[0])
    else
      var last := |devs| - 1;
      SyncAgrees(TableOf(devs[..last]), devs[..last], devs[last]);
      assert devs == devs[..last] + [devs[last]];
      SyncTable(TableOf(devs[..last]), devs[last])
  }

  /** A virtual mode 0 or 1 that is reported, and is not mode 0 over again, is on every console that has its geometry a
      mode of that geometry, and on every other console nothing. */
  lemma LowModeAgrees(t: Table, devs: seq<ModeList>, m: nat, i: nat)
    requires Agrees(t, devs) && LowAgrees(t, devs) && m < 2 && m < |t.rows| && i < |devs|
    requires m == 0 || (GeometryAt(t, m) != NOWHERE && GeometryAt(t, m) != GeometryAt(t, 0))
    ensures EntryAgrees(t, devs[i], m, i) <==> Answers(GeometryAt(t, m)) in devs[i]
    ensures t.rows[m][i] == -1 <==> Answers(GeometryAt(t, m)) !in devs[i]
  {
    assert LowEntryAgrees(t, devs[i], m, i);
  }

  /** Mode 1 is reported as the first console's, and is blanked exactly when some console fails it. */
  lemma {:induction false} Mode1Blanked(devs: seq<ModeList>)
    requires |devs| >= 1 && Honest(devs[0]) && |devs[0]| > 1
    ensures TableOf(devs).query[1] ==
            if exists i :: 0 <= i < |devs| && FailsMode1(devs[i]) then NOWHERE else devs[0][1].g
  {
    var last := |devs| - 1;
    if last == 0 {
      assert devs == [devs[0]];
      TableOfFirst(devs[0]);
    } else {
      hide Agrees, ScanTo;
      Mode1Blanked(devs[..last]);
      assert devs == devs[..last] + [devs[last]];
      TableOfNext(devs[..last], devs[last]);
      Mode1Next(TableOf(devs[..last]), devs[..last], devs[last]);
      if FailsMode1(devs[last]) {
      } else {
        assert forall i :: 0 <= i < last ==> devs[..last][i] == devs[i];
      }
    }
  }

  lemma Mode1Next(t: Table, devs: seq<ModeList>, d: ModeList)
    requires Agrees(t, devs) && |t.query| > 1
    ensures |SyncTable(t, d).query| > 1
    ensures SyncTable(t, d).query[1] == if FailsMode1(d) then NOWHERE else t.query[1]
  {
    ScanQuery(t, d, |d|);
  }

  lemma TableOfFirst(d: ModeList)
    requires Honest(d)
    ensures TableOf([d]) == FirstTable(d)
  {
  }

  lemma TableOfNext(devs: seq<ModeList>, d: ModeList)
    requires |devs| >= 1 && Honest(devs[0])
    ensures TableOf(devs + [d]) == SyncTable(TableOf(devs), d)
  {
    assert (devs + [d])[..|devs|] == devs;
  }

  ghost predicate DistinctModes(d: ModeList) {
    var q := FirstTable(d).query;
    && (forall j, k :: 0 <= j < k < |d| ==> q[j] != q[k])
    && (forall k :: 2 <= k < |d| ==> q[k] != NOWHERE)
  }

  // Geometry k of the list that a table was started from; blanking mode 1 does not touch the others.
  ghost predicate StartedFrom(t: Table, d: ModeList) {
    && |t.query| == |d|
    && (forall k :: 0 <= k < |d| && k != 1 ==> t.query[k] == FirstTable(d).query[k])
    && (|d| > 1 ==> t.query[1] == FirstTable(d).query[1] || t.query[1] == NOWHERE)
  }

  lemma {:induction false} ScanStarted(t: Table, d0: ModeList, d: ModeList, k: nat)
    requires Indexed(t) && StartedFrom(t, d0) && k <= |d|
    ensures StartedFrom(t.(query := ScanTo(t, d, k).query), d0)
  {
    if k > 0 {
      ScanStarted(t, d0, d, k - 1);
    }
  }

  /** With distinct geometries, a row from 2 on gets an entry exactly when the new console has its geometry. */
  lemma {:induction false} ScanFinds(t: Table, devs: seq<ModeList>, d: ModeList, k: nat, m: nat)
    requires Agrees(t, devs) && StartedFrom(t, devs[0]) && DistinctModes(devs[0])
    requires k <= |d| && 2 <= m < |t.rows|
    ensures ScanTo(t, d, k).column[m] != -1 <==> Answers(GeometryAt(t, m)) in d[..k]
  {
    if k > 0 {
      ScanFinds(t, devs, d, k - 1, m);
      ScanAgrees(t, devs, d, k - 1);
      ScanStarted(t, devs[0], d, k - 1);
      assert d[..k] == d[..k - 1] + [d[k - 1]];
      var s := ScanTo(t, d, k - 1);
      assert t.rows[1][0] == 1 && t.rows[1][0] < t.rows[m][0];
      assert GeometryAt(t.(query := s.query), m) == GeometryAt(t, m);
    }
  }

  ghost predicate Offers(t: Table, k: int)
    requires Indexed(t)
  {
    exists m :: 0 <= m < |t.rows| && t.rows[m][0] == k
  }

  lemma SyncOffers(t: Table, devs: seq<ModeList>, d: ModeList, k: int)
    requires Agrees(t, devs) && StartedFrom(t, devs[0]) && DistinctModes(devs[0]) && 2 <= k < |devs[0]|
    ensures Agrees(SyncTable(t, d), devs + [d]) && StartedFrom(SyncTable(t, d), devs[0])
    ensures Offers(SyncTable(t, d), k) <==> Offers(t, k) && Answers(FirstTable(devs[0]).query[k]) in d
  {
    hide ScanTo, SyncTable, StartedFrom, DistinctModes;
    SyncAgrees(t, devs, d);
    SyncRows(t, d);
    var s := ScanTo(t, d, |d|);
    ScanStarted(t, devs[0], d, |d|);
    SyncStarted(t, devs[0], d);
    var keep := Kept(s.column, |t.rows|);
    var t' := SyncTable(t, d);
    assert d[..|d|] == d;
    if Offers(t', k) {
      var m :| 0 <= m < |t'.rows| && t'.rows[m][0] == k;
      ScanFinds(t, devs, d, |d|, keep[m]);
    }
    if Offers(t, k) && Answers(FirstTable(devs[0]).query[k]) in d {
      var r :| 0 <= r < |t.rows| && t.rows[r][0] == k;
      StartedSame(t, devs[0], k);
      ScanFinds(t, devs, d, |d|, r);
      KeptExactly(s.column, |t.rows|);
      assert r in keep;
      var m :| 0 <= m < |keep| && keep[m] == r;
      assert t'.rows[m][0] == k;
    }
    StartedSame(t, devs[0], k);
  }

  lemma SyncStarted(t: Table, d0: ModeList, d: ModeList)
    requires Indexed(t) && StartedFrom(t.(query := ScanTo(t, d, |d|).query), d0)
    ensures StartedFrom(SyncTable(t, d), d0)
  {
  }

  lemma StartedSame(t: Table, d0: ModeList, k: nat)
    requires StartedFrom(t, d0) && 2 <= k < |d0|
    ensures t.query[k] == FirstTable(d0).query[k]
  {
  }

  /** Every console but the first has a geometry. */
  ghost predicate OthersHave(devs: seq<ModeList>, g: Geometry) {
    forall i :: 1 <= i < |devs| ==> Answers(g) in devs[i]
  }

  lemma OthersHaveNext(devs: seq<ModeList>, d: ModeList, g: Geometry)
    requires |devs| >= 1
    ensures OthersHave(devs + [d], g) <==> OthersHave(devs, g) && Answers(g) in d
  {
    var all := devs + [d];
    assert all[|devs|] == d && forall i :: 0 <= i < |devs| ==> all[i] == devs[i];
  }

  /** The virtual modes are the intersection: a mode of the first console from 2 on is offered exactly
      when every other console has its geometry, provided the first console's geometries are distinct. */
  lemma {:induction false} TableIsIntersection(devs: seq<ModeList>, k: int)
    requires |devs| >= 1 && Honest(devs[0]) && DistinctModes(devs[0]) && 2 <= k < |devs[0]|
    ensures StartedFrom(TableOf(devs), devs[0])
    ensures Offers(TableOf(devs), k) <==> OthersHave(devs, FirstTable(devs[0]).query[k])
  {
    if |devs| == 1 {
      assert devs == [devs[0]];
      TableOfFirst(devs[0]);
      assert TableOf(devs).rows[k][0] == k;
    } else {
      hide Agrees, StartedFrom, DistinctModes, SyncTable, Offers, OthersHave, FirstTable, TableOf, Honest;
      var before, last := devs[..|devs| - 1], devs[|devs| - 1];
      assert devs == before + [last];
      TableOfNext(before, last);
      TableIsIntersection(before, k);
      SyncOffers(TableOf(before), before, last, k);
      OthersHaveNext(before, last, FirstTable(devs[0]).query[k]);
    }
  }

  // ----- two splitters that share a console -----

  ghost function Shown(t: Table): set<Geometry>
    requires Indexed(t)
  {
    set r | 0 <= r < |t.rows| :: GeometryAt(t, r)
  }

  /** The geometries a caller can query: a blanked mode is reported as unsupported. */
  ghost function Exposed(t: Table): set<Geometry>
    requires Indexed(t)
  {
    Shown(t) - {NOWHERE}
  }

  // Flags of both splitters while the rows of the first are walked: 1 for a common geometry.
  datatype Common = Common(a: seq<int>, b: seq<int>)

  function CommonTo(a: Table, b: Table, k: nat): (c: Common)
    requires Indexed(a) && Indexed(b) && k <= |a.rows|
    ensures |c.a| == |a.rows| && |c.b| == |b.rows|
  {
    if k == 0 then Common(seq(|a.rows|, _ => -1), seq(|b.rows|, _ => -1))
    else
      var c := CommonTo(a, b, k - 1);
      var p := Find(b, GeometryAt(a, k - 1), 0);
      if p < |b.rows| then Common(c.a[k - 1 := 1], c.b[p := 1]) else c
  }

  lemma FindShown(t: Table, g: Geometry)
    requires Indexed(t)
    ensures g in Shown(t) <==> Find(t, g, 0) < |t.rows|
  {
    if g in Shown(t) {
      var q :| 0 <= q < |t.rows| && GeometryAt(t, q) == g;
    }
  }

  lemma {:induction false} CommonFlags(a: Table, b: Table, k: nat)
    requires Indexed(a) && Indexed(b) && k <= |a.rows|
    ensures var c := CommonTo(a, b, k);
      && (forall r :: 0 <= r < |a.rows| ==> (c.a[r] != -1 <==> r < k && GeometryAt(a, r) in Shown(b)))
      && (forall q :: 0 <= q < |b.rows| && c.b[q] != -1 ==> GeometryAt(b, q) in Shown(a))
  {
    if k > 0 {
      CommonFlags(a, b, k - 1);
      FindShown(b, GeometryAt(a, k - 1));
    }
  }

  /** Every geometry of the first that the second shows keeps a flag in the second. */
  lemma {:induction false} CommonFound(a: Table, b: Table, k: nat, r: nat)
    requires Indexed(a) && Indexed(b) && r < k <= |a.rows| && GeometryAt(a, r) in Shown(b)
    ensures var p := Find(b, GeometryAt(a, r), 0); p < |b.rows| && CommonTo(a, b, k).b[p] != -1
  {
    FindShown(b, GeometryAt(a, r));
    if r < k - 1 {
      CommonFound(a, b, k - 1, r);
    }
  }

  function Narrowed(t: Table, flags: seq<int>): Table
    requires |flags| == |t.rows|
  {
    t.(rows := Keep(t.rows, flags))
  }

  ghost predicate LowModesShared(a: Table, b: Table)
    requires Indexed(a) && Indexed(b)
  {
    forall r :: 0 <= r < 2 && r < |a.rows| ==> GeometryAt(a, r) == NOWHERE || GeometryAt(a, r) in Shown(b)
  }

  ghost predicate LowMode(t: Table, g: Geometry)
    requires Indexed(t)
  {
    exists r :: 0 <= r < 2 && r < |t.rows| && GeometryAt(t, r) == g
  }

  lemma NarrowedExposes(t: Table, flags: seq<int>, g: Geometry)
    requires Indexed(t) && |flags| == |t.rows|
    ensures Indexed(Narrowed(t, flags))
    ensures g in Shown(Narrowed(t, flags)) <==>
      exists r :: 0 <= r < |t.rows| && GeometryAt(t, r) == g && (r < 2 || flags[r] != -1)
  {
    KeptExactly(flags, |flags|);
    var s := Kept(flags, |flags|);
    var t' := Narrowed(t, flags);
    forall j | 0 <= j < |t'.rows|
      ensures |t'.rows[j]| > 0 && 0 <= t'.rows[j][0] < |t'.query| && t'.rows[j] == t.rows[s[j]]
    {
    }
    if g in Shown(t') {
      var j :| 0 <= j < |t'.rows| && GeometryAt(t', j) == g;
      assert s[j] in s && GeometryAt(t, s[j]) == g;
    }
    if r :| 0 <= r < |t.rows| && GeometryAt(t, r) == g && (r < 2 || flags[r] != -1) {
      assert r in s;
      var j :| 0 <= j < |s| && s[j] == r;
      assert GeometryAt(t', j) == g;
    }
  }

  lemma SharedShown(a: Table, b: Table, g: Geometry)
    requires Indexed(a) && Indexed(b)
    ensures var c := CommonTo(a, b, |a.rows|);
      && Indexed(Narrowed(a, c.a)) && Indexed(Narrowed(b, c.b))
      && (g in Shown(Narrowed(a, c.a)) <==> (g in Shown(a) && g in Shown(b)) || LowMode(a, g))
      && (g in Shown(Narrowed(b, c.b)) <==> (g in Shown(a) && g in Shown(b)) || LowMode(b, g))
  {
    hide CommonTo, Narrowed;
    var c := CommonTo(a, b, |a.rows|);
    CommonFlags(a, b, |a.rows|);
    NarrowedExposes(a, c.a, g);
    NarrowedExposes(b, c.b, g);
    if g in Shown(a) && g in Shown(b) {
      var r :| 0 <= r < |a.rows| && GeometryAt(a, r) == g;
      CommonFound(a, b, |a.rows|, r);
    }
  }

  /** After both splitters drop what is not common, they expose the same geometries exactly when each
      one's modes 0 and 1, which are never dropped, were exposed by the other. */
  lemma SharedExposesSame(a: Table, b: Table)
    requires Indexed(a) && Indexed(b)
    ensures var c := CommonTo(a, b, |a.rows|);
      Indexed(Narrowed(a, c.a)) && Indexed(Narrowed(b, c.b))
      && (Exposed(Narrowed(a, c.a)) == Exposed(Narrowed(b, c.b)) <==> LowModesShared(a, b) && LowModesShared(b, a))
  {
    hide CommonTo, Narrowed, Shown;
    var c := CommonTo(a, b, |a.rows|);
    var a', b' := Narrowed(a, c.a), Narrowed(b, c.b);
    SharedShown(a, b, NOWHERE);
    forall g
      ensures g in Shown(a') <==> (g in Shown(a) && g in Shown(b)) || LowMode(a, g)
      ensures g in Shown(b') <==> (g in Shown(a) && g in Shown(b)) || LowMode(b, g)
    {
      SharedShown(a, b, g);
    }
    if LowModesShared(a, b) && LowModesShared(b, a) {
      assert forall g | g != NOWHERE :: LowMode(a, g) ==> g in Shown(b) && g in Shown(a) by { LowModeShown(a); }
      assert forall g | g != NOWHERE :: LowMode(b, g) ==> g in Shown(a) && g in Shown(b) by { LowModeShown(b); }
      assert Exposed(a') == Exposed(b');
    } else if r :| 0 <= r < 2 && r < |a.rows| && GeometryAt(a, r) != NOWHERE && GeometryAt(a, r) !in Shown(b) {
      OnlyLow(a, b, r);
      assert GeometryAt(a, r) in Exposed(a') && GeometryAt(a, r) !in Exposed(b');
    } else {
      var q :| 0 <= q < 2 && q < |b.rows| && GeometryAt(b, q) != NOWHERE && GeometryAt(b, q) !in Shown(a);
      OnlyLow(b, a, q);
      assert GeometryAt(b, q) in Exposed(b') && GeometryAt(b, q) !in Exposed(a');
    }
  }

  lemma LowModeShown(t: Table)
    requires Indexed(t)
    ensures forall g :: LowMode(t, g) ==> g in Shown(t)
  {
  }

  lemma OnlyLow(a: Table, b: Table, r: nat)
    requires Indexed(a) && Indexed(b) && r < 2 && r < |a.rows| && GeometryAt(a, r) !in Shown(b)
    ensures LowMode(a, GeometryAt(a, r)) && !LowMode(b, GeometryAt(a, r))
  {
  }
}

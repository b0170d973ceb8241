/** A mode map as the console splitter stores it: a flat buffer read as rows of a given step,
    and the in-place removal of rows, even when the flags live in a column of the very map. */
module ModeMap {
  import opened TextModeTable

  function At(offset: nat, step: nat, k: nat): nat { offset + k * step }

  lemma RowFits(m: nat, rows: nat, step: nat)
    requires m < rows
    ensures m * step + step <= rows * step
  {
    var d := rows - m - 1;
    assert rows * step == (m + 1 + d) * step == m * step + step + d * step;
  }

  /** The first rows of the buffer, each of width step. */
  function Grid(a: seq<int>, step: nat, rows: nat): (g: seq<seq<int>>)
    requires rows * step <= |a|
    ensures |g| == rows
  {
    if rows == 0 then [] else
      assert rows * step == (rows - 1) * step + step;
      Grid(a, step, rows - 1) + [a[(rows - 1) * step..(rows - 1) * step + step]]
  }

  lemma {:induction false} GridRow(a: seq<int>, step: nat, rows: nat, m: nat)
    requires rows * step <= |a| && m < rows
    ensures m * step + step <= |a|
    ensures Grid(a, step, rows)[m] == a[m * step..m * step + step]
  {
    RowFits(m, rows, step);
    if m < rows - 1 {
      GridRow(a, step, rows - 1, m);
    }
  }

  /** The first n entries of a row. */
  lemma GridHead(a: seq<int>, step: nat, rows: nat, m: nat, x: nat, n: nat)
    requires rows * step <= |a| && m < rows && x == m * step && n <= step
    ensures x + step <= |a| && |Grid(a, step, rows)[m]| == step
    ensures Grid(a, step, rows)[m][..n] == a[x..x + n]
  {
    hide Grid;
    GridRow(a, step, rows, m);
    assert a[x..x + step][..n] == a[x..x + n];
  }

  lemma GridAt(a: seq<int>, step: nat, rows: nat, m: nat, i: nat)
    requires rows * step <= |a| && m < rows && i < step
    ensures At(i, step, m) < |a| && |Grid(a, step, rows)[m]| == step
    ensures Grid(a, step, rows)[m][i] == a[At(i, step, m)]
  {
    GridRow(a, step, rows, m);
  }

  /** Two buffers show the same rows when they agree there. */
  lemma {:induction false} GridSame(a: seq<int>, b: seq<int>, step: nat, rows: nat)
    requires rows * step <= |a| && rows * step <= |b| && a[..rows * step] == b[..rows * step]
    ensures Grid(a, step, rows) == Grid(b, step, rows)
  {
    if rows > 0 {
      var n := rows * step;
      assert (rows - 1) * step == n - step;
      assert a[..n][..n - step] == a[..n - step] && b[..n][..n - step] == b[..n - step];
      GridSame(a, b, step, rows - 1);
      assert a[n - step..n] == a[..n][n - step..] && b[n - step..n] == b[..n][n - step..];
    }
  }

  lemma {:induction false} GridPrefix(a: seq<int>, step: nat, rows: nat, fewer: nat)
    requires rows * step <= |a| && fewer <= rows
    ensures fewer * step <= |a| && Grid(a, step, fewer) == Grid(a, step, rows)[..fewer]
  {
    if fewer < rows {
      RowFits(rows - 1, rows, step);
      GridPrefix(a, step, rows - 1, fewer);
    }
  }

  /** Writing one entry changes that entry of that row only. */
  lemma GridSet(a: seq<int>, step: nat, rows: nat, m: nat, i: nat, v: int)
    requires rows * step <= |a| && i < step && m < rows
    ensures At(i, step, m) < |a| && |Grid(a, step, rows)[m]| == step
    ensures Grid(a[At(i, step, m) := v], step, rows) == Grid(a, step, rows)[m := Grid(a, step, rows)[m][i := v]]
  {
    GridAt(a, step, rows, m, i);
    var b := a[At(i, step, m) := v];
    var g, g' := Grid(a, step, rows), Grid(b, step, rows);
    forall r | 0 <= r < rows
      ensures g'[r] == if r == m then g[m][i := v] else g[r]
    {
      GridRow(a, step, rows, r);
      GridRow(b, step, rows, r);
      if r < m { RowFits(r, m, step); } else if r > m { RowFits(m, r, step); }
    }
  }

  /** A write past the rows shown does not show. */
  lemma GridSetPast(a: seq<int>, step: nat, rows: nat, k: nat, v: int)
    requires rows * step <= k < |a|
    ensures Grid(a[k := v], step, rows) == Grid(a, step, rows)
  {
    GridSame(a, a[k := v], step, rows);
  }

  lemma Spliced(a: seq<int>, b: seq<int>, to: nat, from: nat, z: nat, step: nat)
    requires to + step <= |a| && from + step <= |a| && z + step <= |a|
    requires b == a[..to] + a[from..from + step] + a[to + step..]
    requires z == to || z + step <= to || to + step <= z
    ensures |b| == |a| && b[z..z + step] == if z == to then a[from..from + step] else a[z..z + step]
  {
  }

  lemma SameProduct(r: nat, to: nat, step: nat)
    requires r != to && step > 0
    ensures r * step != to * step
  {
    if r < to { RowFits(r, to, step); } else { RowFits(to, r, step); }
  }

  lemma GridCopyAt(a: seq<int>, b: seq<int>, step: nat, rows: nat, to: nat, from: nat, x: nat, y: nat, r: nat)
    requires step > 0 && rows * step <= |a| && to < rows && from < rows && r < rows
    requires x == to * step && y == from * step
    requires x + step <= |a| && y + step <= |a|
    requires b == a[..x] + a[y..y + step] + a[x + step..]
    ensures |b| == |a| && Grid(b, step, rows)[r] == Grid(a, step, rows)[if r == to then from else r]
  {
    hide Grid;
    var z := r * step;
    assert z == x || z + step <= x || x + step <= z by {
      if r < to { RowFits(r, to, step); } else if r > to { RowFits(to, r, step); }
    }
    assert z + step <= |a| by { RowFits(r, rows, step); }
    Spliced(a, b, x, y, z, step);
    assert Grid(b, step, rows)[r] == b[z..z + step] by { GridRow(b, step, rows, r); }
    if r == to {
      GridRow(a, step, rows, from);
    } else {
      GridRow(a, step, rows, r);
      SameProduct(r, to, step);
    }
  }

  /** Copying one row's stretch of the buffer over another's copies the row. */
  lemma GridCopy(a: seq<int>, b: seq<int>, step: nat, rows: nat, to: nat, from: nat, x: nat, y: nat)
    requires step > 0 && rows * step <= |a| && to < rows && from < rows && x == to * step && y == from * step
    requires x + step <= |a| && y + step <= |a|
    requires b == a[..x] + a[y..y + step] + a[x + step..]
    ensures |b| == |a| && Grid(b, step, rows) == Grid(a, step, rows)[to := Grid(a, step, rows)[from]]
  {
    hide Grid;
    forall r | 0 <= r < rows
      ensures Grid(b, step, rows)[r] == Grid(a, step, rows)[if r == to then from else r]
    {
      GridCopyAt(a, b, step, rows, to, from, x, y, r);
    }
  }

  lemma Pasted(a: seq<int>, b: seq<int>, x: nat, p: seq<int>, z: nat, step: nat)
    requires |p| <= step && x + step <= |a| && z + step <= |a| && b == a[..x] + p + a[x + |p|..]
    requires z == x || z + step <= x || x + step <= z
    ensures |b| == |a|
    ensures b[z..z + step] == if z == x then p + a[x..x + step][|p|..] else a[z..z + step]
  {
  }

  lemma GridPasteAt(a: seq<int>, b: seq<int>, step: nat, rows: nat, m: nat, x: nat, p: seq<int>, r: nat)
    requires step > 0 && rows * step <= |a| && m < rows && r < rows && x == m * step
    requires |p| <= step && x + step <= |a| && b == a[..x] + p + a[x + |p|..]
    ensures |b| == |a| && |Grid(a, step, rows)[m]| == step
    ensures Grid(b, step, rows)[r] == if r == m then p + Grid(a, step, rows)[m][|p|..] else Grid(a, step, rows)[r]
  {
    hide Grid;
    var z := r * step;
    RowFits(r, rows, step);
    if r != m {
      SameProduct(r, m, step);
      if r < m { RowFits(r, m, step); } else { RowFits(m, r, step); }
    }
    Pasted(a, b, x, p, z, step);
    GridRow(a, step, rows, m);
    GridRow(a, step, rows, r);
    GridRow(b, step, rows, r);
  }

  /** Writing p at the start of a row's stretch replaces the head of that row. */
  lemma GridPaste(a: seq<int>, b: seq<int>, step: nat, rows: nat, m: nat, x: nat, p: seq<int>)
    requires step > 0 && rows * step <= |a| && m < rows && x == m * step
    requires |p| <= step && x + step <= |a| && b == a[..x] + p + a[x + |p|..]
    ensures |b| == |a| && |Grid(a, step, rows)[m]| == step
    ensures Grid(b, step, rows) == Grid(a, step, rows)[m := p + Grid(a, step, rows)[m][|p|..]]
  {
    hide Grid;
    GridPasteAt(a, b, step, rows, m, x, p, m);
    forall r | 0 <= r < rows
      ensures Grid(b, step, rows)[r] == if r == m then p + Grid(a, step, rows)[m][|p|..] else Grid(a, step, rows)[r]
    {
      GridPasteAt(a, b, step, rows, m, x, p, r);
    }
  }

  lemma {:induction false} GridConst(a: seq<int>, step: nat, rows: nat, v: int)
    requires rows * step <= |a| && forall k :: 0 <= k < |a| ==> a[k] == v
    ensures Grid(a, step, rows) == seq(rows, _ => seq(step, _ => v))
  {
    hide Grid;
    forall m | 0 <= m < rows
      ensures Grid(a, step, rows)[m] == seq(step, _ => v)
    {
      GridRow(a, step, rows, m);
    }
  }

  /** Copy n entries from one buffer into another; nothing is read when n is 0. */
  method CopyAcross(dst: array<int>, to: nat, src: array<int>, from: nat, n: nat)
    requires dst != src && to + n <= dst.Length && (n > 0 ==> from + n <= src.Length)
    modifies dst
    ensures dst[..] == old(dst[..])[..to] + (if n == 0 then [] else src[from..from + n]) + old(dst[..])[to + n..]
  {
    forall i | 0 <= i < n {
      dst[to + i] := src[from + i];
    }
  }

  /** Copy a row over an earlier one. */
  method CopyRow(map_: array<int>, to: nat, from: nat, step: nat)
    requires to + step <= from && from + step <= map_.Length
    modifies map_
    ensures map_[..] == old(map_[..])[..to] + old(map_[..])[from..from + step] + old(map_[..])[to + step..]
  {
    forall i | 0 <= i < step {
      map_[to + i] := map_[from + i];
    }
  }

  ghost predicate CompactedTo(now: seq<seq<int>>, g: seq<seq<int>>, flags: seq<int>, index: nat, next: nat) {
    && |now| == |g| == |flags| && next <= index <= |flags| && next == |Kept(flags, index)|
    && (forall j :: 0 <= j < next ==> now[j] == g[Kept(flags, index)[j]])
    && (forall j :: index <= j < |g| ==> now[j] == g[j])
  }

  function RenumberTo(flags: seq<int>, mode: int, index: nat): int
    requires index <= |flags|
  {
    if mode < 2 then mode
    else if mode >= index then mode - (index - |Kept(flags, index)|)
    else if flags[mode] == -1 then -1
    else |Kept(flags, mode)|
  }

  lemma CompactStart(g: seq<seq<int>>, flags: seq<int>, mode: int)
    requires |g| == |flags|
    ensures |flags| >= 2 ==> CompactedTo(g, g, flags, 2, 2) && RenumberTo(flags, mode, 2) == mode
    ensures |flags| < 2 ==> Keep(g, flags) == g && |Kept(flags, |flags|)| == |flags| && Renumber(flags, mode) == mode
  {
    KeptExactly(flags, |flags|);
    if |flags| >= 2 {
      KeptExactly(flags, 2);
    }
  }

  lemma CompactEnd(now: seq<seq<int>>, g: seq<seq<int>>, flags: seq<int>, next: nat, mode: int)
    requires CompactedTo(now, g, flags, |flags|, next)
    ensures now[..next] == Keep(g, flags) && next == |Kept(flags, |flags|)|
    ensures Renumber(flags, mode) == RenumberTo(flags, mode, |flags|)
  {
  }

  /** One row of the walk: dropped, or moved up to the next free place. */
  lemma CompactStep(now: seq<seq<int>>, g: seq<seq<int>>, flags: seq<int>, index: nat, next: nat)
    requires CompactedTo(now, g, flags, index, next) && 2 <= index < |flags|
    ensures flags[index] == -1 ==> CompactedTo(now, g, flags, index + 1, next)
    ensures flags[index] != -1 ==> CompactedTo(now[next := now[index]], g, flags, index + 1, next + 1)
  {
  }

  lemma RenumberStep(flags: seq<int>, mode: int, index: nat)
    requires 2 <= index < |flags|
    ensures RenumberTo(flags, mode, index + 1) ==
      if flags[index] != -1 then RenumberTo(flags, mode, index)
      else if index == mode then -1
      else if index < mode then RenumberTo(flags, mode, index) - 1
      else RenumberTo(flags, mode, index)
  {
  }

  lemma StepBounds(next: nat, index: nat, maxMode: nat, step: nat)
    requires next <= index < maxMode && step > 0
    ensures index * step + step <= maxMode * step
    ensures (index + 1) * step == index * step + step && (next + 1) * step == next * step + step
    ensures if next < index then next * step + step <= index * step else next * step == index * step
  {
    RowFits(index, maxMode, step);
    if next < index {
      RowFits(next, index, step);
    }
  }

  /** Remove the rows from 2 on whose flag is -1, moving the later rows up in place. The flags may be
      read from a column of the same map while it is being compacted. */
  method GetIntersection(textOutModeMap: array<int>, newlyAddedMap: array<int>, newOffset: nat,
                         mapStepSize: nat, newMapStepSize: nat, maxMode: nat, currentMode: int,
                         ghost flags: seq<int>)
    returns (newMaxMode: nat, newCurrentMode: int)
    requires mapStepSize > 0 && maxMode * mapStepSize <= textOutModeMap.Length && |flags| == maxMode
    requires forall k :: 0 <= k < maxMode ==>
      At(newOffset, newMapStepSize, k) < newlyAddedMap.Length
      && newlyAddedMap[At(newOffset, newMapStepSize, k)] == flags[k]
    requires newlyAddedMap == textOutModeMap ==> newMapStepSize == mapStepSize
    modifies textOutModeMap
    ensures newMaxMode == |Kept(flags, maxMode)| && newMaxMode * mapStepSize <= textOutModeMap.Length
    ensures Grid(textOutModeMap[..], mapStepSize, newMaxMode)
         == Keep(Grid(old(textOutModeMap[..]), mapStepSize, maxMode), flags)
    ensures newCurrentMode == Renumber(flags, currentMode)
  {
    hide Grid, Kept, Keep, Renumber, RenumberTo, CompactedTo;
    ghost var g := Grid(old(textOutModeMap[..]), mapStepSize, maxMode);
    ghost var now := g;
    newMaxMode, newCurrentMode := maxMode, currentMode;
    CompactStart(g, flags, currentMode);
    var index := 2;
    var currentEntry := mapStepSize * 2;
    var nextEntry := currentEntry;
    var newEntry := newOffset + newMapStepSize * 2;
    ghost var next := 2;
    while index < maxMode
      invariant 2 <= index && (maxMode < 2 || index <= maxMode)
      invariant currentEntry == index * mapStepSize && nextEntry == next * mapStepSize && 2 <= next <= index
      invariant newEntry == At(newOffset, newMapStepSize, index)
      invariant now == Grid(textOutModeMap[..], mapStepSize, maxMode)
      invariant forall k :: currentEntry <= k < textOutModeMap.Length ==> textOutModeMap[k] == old(textOutModeMap[k])
      invariant maxMode < 2 ==> now == g && newMaxMode == maxMode && newCurrentMode == currentMode
      invariant maxMode >= 2 ==> CompactedTo(now, g, flags, index, next)
      invariant maxMode >= 2 ==> newMaxMode == maxMode - (index - next)
      invariant maxMode >= 2 ==> newCurrentMode == RenumberTo(flags, currentMode, index)
    {
      StepBounds(next, index, maxMode, mapStepSize);
      CompactStep(now, g, flags, index, next);
      RenumberStep(flags, currentMode, index);
      assert newlyAddedMap[newEntry] == flags[index];
      if newlyAddedMap[newEntry] == -1 {
        if index == currentMode {
          newCurrentMode := -1;
        } else if index < currentMode {
          newCurrentMode := newCurrentMode - 1;
        }
        newMaxMode := newMaxMode - 1;
      } else {
        if currentEntry != nextEntry {
          ghost var before := textOutModeMap[..];
          CopyRow(textOutModeMap, nextEntry, currentEntry, mapStepSize);
          GridCopy(before, textOutModeMap[..], mapStepSize, maxMode, next, index, nextEntry, currentEntry);
        }
        now := now[next := now[index]];
        nextEntry := nextEntry + mapStepSize;
        next := next + 1;
      }
      currentEntry := currentEntry + mapStepSize;
      newEntry := newEntry + newMapStepSize;
      index := index + 1;
    }
    if maxMode >= 2 {
      CompactEnd(now, g, flags, next, currentMode);
    }
    GridPrefix(textOutModeMap[..], mapStepSize, maxMode, newMaxMode);
  }
}

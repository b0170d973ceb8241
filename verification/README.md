# Console, clock, DMA and key handling of the MSM8916 UEFI drivers

A Dafny model of the drivers in MSM8916Pkg/Drivers that carry state worth reasoning about, with proofs that hold
for every input, every run or every reachable state. `dafny verify dfyconfig.toml` checks all of it.

| file | models |
|---|---|
| Helpers.dfy | what several files share |
| TerminalSpec.dfy | the text terminal as a value: cells of pixels, XOR cursor, one character at a time |
| TerminalCells.dfy | what each character leaves on that terminal, cell by cell, and its colors |
| ConsoleLoop.dfy | the console engine's loop over a string as a value, and when it ends |
| GraphicsConsole.dfy | the batched, self-calling console engine that must equal both |
| ConSplitterCursor.dfy | the console splitter's own cursor against that engine |
| TextModeTable.dfy | virtual text modes as a table of device mode numbers, and what adding a console does to it |
| ModeMap.dfy | the flat, in-place, self-aliasing form of the table's compaction |
| ConSplitterTextOut.dfy | the splitter object: grow, fill, compact, rebuild, query, set, share |
| GraphicsModes.dfy | the splitter's graphics mode buffer as an intersection of device modes |
| KeyNotify.dfy | key registrations fanned out to all keyboards, with rollback |
| KeyRing.dfy | the keypad's key ring and its deferred notifications |
| ClockTree.dfy, Clocks.dfy | reference-counted clocks with rollback and moving parents |
| ClockBanks.dfy | the glitch-free switch of a two-bank clock |
| BamFifo.dfy | the DMA descriptor ring and the end offset that hardware is told |
| I2cTags.dfy, I2cEngine.dfy | the I2C tag stream, its packing, and the polled engine that sends it |
| DsiPll.dfy | the display PLL's dividers and their frequency error |

Objects whose fields the drivers update are classes; each method is proved against a function of its old state,
and what the drivers promise is proved about those functions. Ghost fields (`text`, `table`, `seen`, `bases`) record what
the state stands for and are tied to the real fields by `Ready` or `Valid`.

## What the proofs found

Where the code does not do what it seems meant to, the code was kept and the exact condition proved.

- The loop over a string ends if and only if the terminal has two columns or the string brings up no printable
  character while the width is on (`LoopEndsExactly`). A graphics mode change that the display refuses leaves the cursor
  off the screen (`Console.SetMode`).
- The splitter's own cursor parts from a real console's exactly at a width switch (`WidthSwitchDiverges`).
- The scan for a console common to both splitters never sets its pointer back. It is right whatever memory holds exactly
  for lists on which it need not go past the live consoles (`ScanSafeRight`, `ScanUnsafeWrong`).
- A further console's failing mode 1 blanks mode 1 for all, and the row of that mode then catches a later mode that the
  console reports as 0 by 0 (`ScanEntry`, `Mode1Blanked`).
- Two splitters sharing a console end up with the same text geometries exactly when each one's modes 0 and 1 were
  exposed by the other too (`SharedExposesSame`).
- When a text console is removed, the number of the current mode is taken for one of the first survivor's own modes
  (`RebuiltModeRow`).
- Graphics modes are all queried as the resolution that setting them leads to exactly when more than one device is left,
  or the one that is has the buffer's resolutions in the same places (`QueryMatchesExactly`); detaching a device can
  break it (`DetachedMismatch`).
- `clock_lib2_rcg_set_rate` goes on when the new source refuses; that strands the clock on a stopped source exactly
  when the clock runs (`RateOnRefusedSource`). It never releases the old source (`OldSourceKept`).
- The DMA ring's 16-bit offset is too small for a ring of 16384 descriptors: a wrong end is announced from slots 8191 to
  16382 (`FreshEventRight`). A second transfer without reading the offset again announces a right end only if the first
  took a whole ring, or half of one where it was itself announced wrongly (`StaleEvent`). `bam_add_desc` reports success
  when an uninitialised pipe took nothing, when clashing flags lost the last descriptor, and when a transfer of exactly
  one ring's worth was not announced (`Pipe.AddDesc`).
- In the display PLL's integer mode, divider bit 5 and the mode flag are the same bit: from 33 references on, the SDM
  fields are those of a frequency 32 references lower (`IntegerExact`, `IntegerAmbiguous`). Its error code -1 comes
  back as 255 (`Pll.AutoPllConfig`).
- I2C addresses lose everything above seven bits and read lengths everything above eight (`Faithful`), and a read of
  more than 60 bytes is cut short without an error (`ReadsInFull`).
- A key that matches k registrations is queued k times, so each of them is called k times (`Delivered`).
- A registration covered by an earlier one, which may be a wildcard for shift and toggle states, gets the earlier one's
  handle, so taking back either ends both. When the earlier one is another client's, the splitter's registrations are
  no longer one for each device and entry, and undoing takes the other client's away; this happens exactly when a
  covering one is met (`TextInSplitter.RegisterKeyNotify`, `TextInSplitter.AddExDevice`).

## Model

| member | source | states |
|---|---|---|
| TerminalSpec.XorTwice | MSM8916Pkg/Drivers/GraphicsConsoleDxe/GraphicsConsole.c:1966-1973 | XORing the cursor glyph onto a cell twice gives the cell back, whatever the color |
| TerminalSpec.OverlayTwice | MSM8916Pkg/Drivers/GraphicsConsoleDxe/GraphicsConsole.c:1900-2004 | toggling the cursor twice restores the whole screen, on or off the display |
| TerminalSpec.DrawOver | MSM8916Pkg/Drivers/GraphicsConsoleDxe/GraphicsConsole.c:950 | drawing over the cursor's cell gives the screen that would result had the cursor never been drawn there |
| TerminalSpec.PutRun | MSM8916Pkg/Drivers/GraphicsConsoleDxe/GraphicsConsole.c:1081-1143 | a run that fits the row, drawn at once and wrapped once, is the same as putting its characters one by one |
| TerminalSpec.PutConcat | MSM8916Pkg/Drivers/GraphicsConsoleDxe/GraphicsConsole.c:957-1146 | the one-at-a-time machine on a concatenation is its run on the first string followed by its run on the second |
| TerminalSpec.PutFollows | MSM8916Pkg/Drivers/GraphicsConsoleDxe/GraphicsConsole.c:957-1146 | whatever the string, the cursor stays inside the rectangle, the colors and geometry stay, and no display cell is added or lost |
| TerminalSpec.PutCharFollows | MSM8916Pkg/Drivers/GraphicsConsoleDxe/GraphicsConsole.c:961-1143 | one character of any kind keeps the cursor inside and the display's cells |
| TerminalCells.ScrollMovesUp | MSM8916Pkg/Drivers/GraphicsConsoleDxe/GraphicsConsole.c:996-1017 | the two block transfers move each row of the window up by one, fill its last row and touch nothing else |
| TerminalCells.LineFeedMovesUp | MSM8916Pkg/Drivers/GraphicsConsoleDxe/GraphicsConsole.c:986-1057 | a line feed in the last row moves the window up by one row and leaves the cursor where it is |
| TerminalCells.LineFeedsMoveUp | MSM8916Pkg/Drivers/GraphicsConsoleDxe/GraphicsConsole.c:986-1060 | a string of line feeds takes the cursor down to the last row and no further, and each one more moves the window up a row, so row r shows what row r + n showed |
| TerminalCells.StringFeeds | MSM8916Pkg/Drivers/GraphicsConsoleDxe/GraphicsConsole.c:986-1060 | so it does from every state a string can be written in, whatever the width in force |
| TerminalCells.DrawnCells | MSM8916Pkg/Drivers/GraphicsConsoleDxe/GraphicsConsole.c:1749-1884 | a drawn character fills its cell, or its two cells when wide, and no other |
| TerminalCells.GlyphShows | MSM8916Pkg/Drivers/GraphicsConsoleDxe/GraphicsConsole.c:1081-1130 | a printable character short of the right edge does that and moves the cursor by its width |
| TerminalCells.GlyphWraps | MSM8916Pkg/Drivers/GraphicsConsoleDxe/GraphicsConsole.c:1138-1142 | one that ends at the edge goes on to the first column of the next row, and in the last row moves the window up with itself in it |
| TerminalCells.BackspaceClears | MSM8916Pkg/Drivers/GraphicsConsoleDxe/GraphicsConsole.c:961-982 | a backspace steps back exactly one cell, over the left edge to the row above, clears only that cell with a narrow space and never moves the window; in the first cell it does nothing |
| TerminalCells.WideAtEdge | MSM8916Pkg/Drivers/GraphicsConsoleDxe/GraphicsConsole.c:1107-1136 | a wide character due in the last column leaves a narrow space there and starts in the first column of the next row |
| TerminalCells.PaletteIs | MSM8916Pkg/Drivers/GraphicsConsoleDxe/GraphicsConsole.c:67-87 | color numbers mix blue, green and red by their three low bits, bright from 9 on; 8 is a dark gray |
| TerminalCells.ColorsMix | MSM8916Pkg/Drivers/GraphicsConsoleDxe/GraphicsConsole.c:1719-1736 | the foreground takes the four low bits of the attribute as such a color and the background the next three |
| TerminalCells.CursorShape | MSM8916Pkg/Drivers/GraphicsConsoleDxe/GraphicsConsole.c:89-93 | the cursor glyph covers exactly the three bottom rows of a cell |
| TerminalCells.PlainWiped | MSM8916Pkg/Drivers/GraphicsConsoleDxe/GraphicsConsole.c:1554-1590 | a display of blank cells with the cursor in the corner shows one color everywhere but under the glyph |
| GraphicsConsole.XorGlyph | MSM8916Pkg/Drivers/GraphicsConsoleDxe/GraphicsConsole.c:1966-1973 | the bit-by-bit loop over a cell buffer XORs exactly the pixels that the glyph covers |
| GraphicsConsole.Console.FlushCursor | MSM8916Pkg/Drivers/GraphicsConsoleDxe/GraphicsConsole.c:1900-2004 | toggles exactly the cursor's cell when the cursor is visible, and nothing otherwise |
| GraphicsConsole.Console.DrawUnicodeWeightAtCursorN | MSM8916Pkg/Drivers/GraphicsConsoleDxe/GraphicsConsole.c:1749-1884 | draws the characters of a run from the cursor on, two cells each when wide, without moving it |
| GraphicsConsole.Console.Batch | MSM8916Pkg/Drivers/GraphicsConsoleDxe/GraphicsConsole.c:1095-1122 | finds a non-empty batch that fits the row, except that a wide character due in the last column ends it one column past the edge |
| GraphicsConsole.Console.LineFeedChar | MSM8916Pkg/Drivers/GraphicsConsoleDxe/GraphicsConsole.c:986-1060 | moves down a row, or in the last row moves every row of the window up by one, fills the last with the background and leaves all other cells alone |
| GraphicsConsole.Console.BackspaceChar | MSM8916Pkg/Drivers/GraphicsConsoleDxe/GraphicsConsole.c:961-982 | steps back a cell, up a row from column 0, and blanks the cell stepped onto, nesting at most two calls deep |
| GraphicsConsole.Console.PadEdge | MSM8916Pkg/Drivers/GraphicsConsoleDxe/GraphicsConsole.c:1132-1136 | a wide character due in the last column finds a narrow space there and the cursor lit in the first column of the next row |
| GraphicsConsole.Console.PrintBatch | MSM8916Pkg/Drivers/GraphicsConsoleDxe/GraphicsConsole.c:1081-1143 | the driver's batch, drawn, padded or wrapped with nested calls, is one iteration of the loop as a value, nesting at most two calls deep |
| GraphicsConsole.Console.ControlChar | MSM8916Pkg/Drivers/GraphicsConsoleDxe/GraphicsConsole.c:961-1080 | backspace, line feed, carriage return and the width switches do what the one-at-a-time machine does, with the cursor off the screen |
| GraphicsConsole.Console.PutString | MSM8916Pkg/Drivers/GraphicsConsoleDxe/GraphicsConsole.c:959-1144 | the loop takes the iterations of the loop as a value, ends for every string the terminal has room for, and equals the one-at-a-time machine |
| GraphicsConsole.Console.OutputString | MSM8916Pkg/Drivers/GraphicsConsoleDxe/GraphicsConsole.c:894-1157 | for every string on which the loop ends the batched, self-calling engine ends in the state of the one-at-a-time machine, with the attribute restored, the cursor inside and drawn exactly once, at most three calls deep; line feeds alone take the cursor down to the last row and then move the window up, row r showing what row r + n showed and the rows that came in background |
| GraphicsConsole.Console.SetMode | MSM8916Pkg/Drivers/GraphicsConsoleDxe/GraphicsConsole.c:1287-1462 | a new mode starts with every pixel of its display black but for the cursor glyph in the corner, the current one is cleared; a refused display mode changes nothing but turns the cursor off, or on again after an earlier refusal |
| GraphicsConsole.Console.SetAttribute | MSM8916Pkg/Drivers/GraphicsConsoleDxe/GraphicsConsole.c:1483-1509 | the attribute changes unless out of range, and the cursor is still drawn exactly once, now in the new color |
| GraphicsConsole.Console.ClearScreen | MSM8916Pkg/Drivers/GraphicsConsoleDxe/GraphicsConsole.c:1527-1593 | every pixel of the display is background but for the cursor glyph in the corner, where the cursor is |
| GraphicsConsole.Console.SetCursorPosition | MSM8916Pkg/Drivers/GraphicsConsoleDxe/GraphicsConsole.c:1617-1663 | succeeds exactly for a place inside the mode, and the cursor is drawn at the new place only |
| GraphicsConsole.Console.EnableCursor | MSM8916Pkg/Drivers/GraphicsConsoleDxe/GraphicsConsole.c:1682-1706 | the cursor appears or disappears with no trace left in its cell |
| GraphicsConsole.Console.Run | MSM8916Pkg/Drivers/GraphicsConsoleDxe/GraphicsConsole.c:894-1706 | after any run of calls, with refused modes and retries, the state is the one a value-level session predicts, with the cursor drawn exactly once unless a refusal has just left it off |
| GraphicsConsole.ApplyAllLegal | MSM8916Pkg/Drivers/GraphicsConsoleDxe/GraphicsConsole.c:894-1706 | in every run the cursor is inside the rectangle of the mode in force, the width bit is off between calls and the display is that mode's |
| ConsoleLoop.PutSpaceStr | MSM8916Pkg/Drivers/GraphicsConsoleDxe/GraphicsConsole.c:966-982 | the nested two-character string puts one narrow space, whatever width was in force |
| ConsoleLoop.PutCrLf | MSM8916Pkg/Drivers/GraphicsConsoleDxe/GraphicsConsole.c:1138-1142 | the nested line break is a wrap to the next row, scrolling in the last |
| ConsoleLoop.BatchToEdge | MSM8916Pkg/Drivers/GraphicsConsoleDxe/GraphicsConsole.c:1095-1142 | drawing a batch up to the edge and wrapping leaves the machine on the rest of the string |
| ConsoleLoop.BatchBeforeEdge | MSM8916Pkg/Drivers/GraphicsConsoleDxe/GraphicsConsole.c:1107-1136 | drawing a batch of wide characters that stops one column short leaves the machine in the last column on the rest |
| ConsoleLoop.BatchFits | MSM8916Pkg/Drivers/GraphicsConsoleDxe/GraphicsConsole.c:1095-1122 | the counting loop ends with a non-empty batch that fits the row, or one column short of its end with a wide character due |
| ConsoleLoop.BatchStepPut | MSM8916Pkg/Drivers/GraphicsConsoleDxe/GraphicsConsole.c:1095-1142 | an iteration on a printable character leaves the outcome of the one-at-a-time machine unchanged, keeps the cursor inside and makes progress |
| ConsoleLoop.LoopEnds | MSM8916Pkg/Drivers/GraphicsConsoleDxe/GraphicsConsole.c:959-1144 | from any point of the loop with room for what is left, the loop gets through the string and ends as the one-at-a-time machine does |
| ConsoleLoop.LoopStuck | MSM8916Pkg/Drivers/GraphicsConsoleDxe/GraphicsConsole.c:959-1144 | on one column with a wide character due, no number of iterations gets through the string |
| ConsoleLoop.LoopEndsExactly | MSM8916Pkg/Drivers/GraphicsConsoleDxe/GraphicsConsole.c:959-1144 | the loop over a string ends if and only if the terminal has two columns or the string brings up no printable character while the width is on |
| TerminalSpec.RoomAfter | MSM8916Pkg/Drivers/GraphicsConsoleDxe/GraphicsConsole.c:1095-1122 | printable characters of a string leave what the rest of it needs as it was |
| ConSplitterCursor.VirtualConsole.OutputString | MSM8916Pkg/Drivers/ConSplitterDxe/ConSplitter.c:4646-4693 | the splitter's loop is the fold of its per-character step over the string |
| ConSplitterCursor.StepAgrees | MSM8916Pkg/Drivers/ConSplitterDxe/ConSplitter.c:4659-4691 | one character moves the splitter's cursor as it moves a console's |
| ConSplitterCursor.CursorAgrees | MSM8916Pkg/Drivers/ConSplitterDxe/ConSplitter.c:4646-4693 | for every string without width switches and every in-range start, in a terminal of any size, the console's cursor ends where the splitter's does |
| ConSplitterCursor.WidthSwitchDiverges | MSM8916Pkg/Drivers/ConSplitterDxe/ConSplitter.c:4659-4691 | the two agree on a character exactly when it is no width switch, or there is only one place to be |
| TextModeTable.KeptExactly | MSM8916Pkg/Drivers/ConSplitterDxe/ConSplitter.c:2450-2483 | the rows that stay are 0 and 1 and, in order, exactly the later ones not marked -1 |
| TextModeTable.RenumberSameRow | MSM8916Pkg/Drivers/ConSplitterDxe/ConSplitter.c:2459-2469 | a current mode in range names the same row afterwards, and is -1 exactly when its row was removed |
| TextModeTable.FirstAgrees | MSM8916Pkg/Drivers/ConSplitterDxe/ConSplitter.c:2344-2405 | after the first console each virtual mode is that console's mode of the same geometry, modes 0 and 1 too unless mode 1 fails |
| TextModeTable.KeepAgrees | MSM8916Pkg/Drivers/ConSplitterDxe/ConSplitter.c:2427-2486 | removing any rows from 2 on keeps every virtual mode, and modes 0 and 1, in agreement with every console |
| TextModeTable.ScanAgrees | MSM8916Pkg/Drivers/ConSplitterDxe/ConSplitter.c:2524-2555 | at any point of walking a new console's modes, an entry from row 2 on is -1 or a mode of the row's geometry |
| TextModeTable.ScanQuery | MSM8916Pkg/Drivers/ConSplitterDxe/ConSplitter.c:2529-2538 | the query data changes only in mode 1, and exactly when the new console fails its mode 1 |
| TextModeTable.ScanEntry | MSM8916Pkg/Drivers/ConSplitterDxe/ConSplitter.c:2526-2555 | any row, 0 and 1 included, that is the first to show its geometry gets the new console's last mode of that geometry, or -1 exactly when it has none; a later row of the same geometry gets -1; a failing mode 1 puts 1 in row 1 |
| TextModeTable.ScanBlanked | MSM8916Pkg/Drivers/ConSplitterDxe/ConSplitter.c:2529-2538 | the entry of row 1 for a console that fails mode 1 stays 1, unless it reports a later mode as 0 by 0 and mode 0 is not that |
| TextModeTable.SyncAgrees | MSM8916Pkg/Drivers/ConSplitterDxe/ConSplitter.c:2496-2570 | after adding a console every virtual mode from 2 on is, on every console, a mode of the geometry that is reported for it, and modes 0 and 1 are on those that have their geometry |
| TextModeTable.TableOf | MSM8916Pkg/Drivers/ConSplitterDxe/ConSplitter.c:2344-2570 | the table of any list of consoles agrees with all of them, from mode 2 on everywhere and in modes 0 and 1 where a console has their geometry |
| TextModeTable.LowModeAgrees | MSM8916Pkg/Drivers/ConSplitterDxe/ConSplitter.c:2545-2553 | a virtual mode 0 or 1 that is reported, and is not mode 0 over again, is on a console a mode of its geometry if and only if the console has one, and -1 otherwise |
| TextModeTable.Mode1Blanked | MSM8916Pkg/Drivers/ConSplitterDxe/ConSplitter.c:2529-2538 | mode 1 is reported as the first console's unless some console fails it, and then not at all |
| TextModeTable.ScanFinds | MSM8916Pkg/Drivers/ConSplitterDxe/ConSplitter.c:2545-2553 | with distinct geometries a virtual mode gets an entry exactly when the new console has its geometry |
| TextModeTable.SyncOffers | MSM8916Pkg/Drivers/ConSplitterDxe/ConSplitter.c:2496-2570 | adding a console keeps exactly the modes whose geometry it has |
| TextModeTable.TableIsIntersection | MSM8916Pkg/Drivers/ConSplitterDxe/ConSplitter.c:2344-2570 | a mode of the first console from 2 on is offered exactly when every other console has its geometry |
| TextModeTable.CommonFlags | MSM8916Pkg/Drivers/ConSplitterDxe/ConSplitter.c:2675-2698 | a row of the first splitter is flagged exactly when the second shows its geometry, and a flagged row of the second is shown by the first |
| TextModeTable.CommonFound | MSM8916Pkg/Drivers/ConSplitterDxe/ConSplitter.c:2684-2695 | every shared geometry keeps a flag in the second splitter too |
| TextModeTable.NarrowedExposes | MSM8916Pkg/Drivers/ConSplitterDxe/ConSplitter.c:2703-2723 | narrowing leaves exactly the geometries of modes 0 and 1 and of the flagged rows |
| TextModeTable.SharedShown | MSM8916Pkg/Drivers/ConSplitterDxe/ConSplitter.c:2639-2727 | after narrowing each splitter shows the common geometries and those of its own modes 0 and 1, and no others |
| TextModeTable.SharedExposesSame | MSM8916Pkg/Drivers/ConSplitterDxe/ConSplitter.c:2639-2727 | both splitters expose the same geometries if and only if each one's modes 0 and 1 were exposed by the other |
| ModeMap.GridSet | MSM8916Pkg/Drivers/ConSplitterDxe/ConSplitter.c:2535-2549 | a write at column plus row times step changes that entry of that row only |
| ModeMap.GridCopy | MSM8916Pkg/Drivers/ConSplitterDxe/ConSplitter.c:2471-2473 | copying a stretch of the flat buffer copies one row over another and nothing else |
| ModeMap.GetIntersection | MSM8916Pkg/Drivers/ConSplitterDxe/ConSplitter.c:2427-2486 | the in-place compaction yields rows 0 and 1 and then exactly the flagged rows in order, even when the flags are a column of the map being compacted |
| ConSplitterTextOut.CopyColumns | MSM8916Pkg/Drivers/ConSplitterDxe/ConSplitter.c:2298-2322 | a map with more columns holds the old columns unchanged and -1 in the new ones |
| ConSplitterTextOut.FillFirstColumn | MSM8916Pkg/Drivers/ConSplitterDxe/ConSplitter.c:2382-2402 | column 0 counts the first console's modes and the query data holds their geometries |
| ConSplitterTextOut.TextOutSplitter.GrowQueryData | MSM8916Pkg/Drivers/ConSplitterDxe/ConSplitter.c:1841-1865 | 32 more entries, the old ones unchanged |
| ConSplitterTextOut.TextOutSplitter.GrowMapTable | MSM8916Pkg/Drivers/ConSplitterDxe/ConSplitter.c:2251-2330 | the reallocated map keeps the columns in use and has -1 everywhere else |
| ConSplitterTextOut.TextOutSplitter.AddOutputMode | MSM8916Pkg/Drivers/ConSplitterDxe/ConSplitter.c:2344-2405 | the buffers show the table of a single console, however many modes it has |
| ConSplitterTextOut.TextOutSplitter.ScanMode | MSM8916Pkg/Drivers/ConSplitterDxe/ConSplitter.c:2526-2555 | one mode of the new console marks the first row of its geometry, rows 0 and 1 included, or blanks mode 1 of the query data and keeps its row |
| ConSplitterTextOut.TextOutSplitter.FindRow | MSM8916Pkg/Drivers/ConSplitterDxe/ConSplitter.c:2545-2553 | the search over the flat map finds the first row that shows the geometry |
| ConSplitterTextOut.SearchRows | MSM8916Pkg/Drivers/ConSplitterDxe/ConSplitter.c:2684-2695 | a search over column 0 of a flat map finds the first row of a geometry |
| ConSplitterTextOut.TextOutSplitter.SyncOutputMode | MSM8916Pkg/Drivers/ConSplitterDxe/ConSplitter.c:2496-2570 | filling the new column and compacting in place gives the table of one console more, in which all rows, 0 and 1 too, agree with every console that has their geometry |
| ConSplitterTextOut.TextOutSplitter.QueryMode | MSM8916Pkg/Drivers/ConSplitterDxe/ConSplitter.c:4767-4811 | reports the row's geometry, and fails exactly for a number out of range or a blanked mode |
| ConSplitterTextOut.TextOutSplitter.SetMode | MSM8916Pkg/Drivers/ConSplitterDxe/ConSplitter.c:4828-4878 | every console is asked for its entry of the mode's row and ends in it if it takes it, and in its old mode otherwise; success means that none failed; all consoles that have the geometry and do not refuse show it, for modes 0 and 1 too; the current mode again clears every screen |
| ConSplitterTextOut.TextOutSplitter.SetAll | MSM8916Pkg/Drivers/ConSplitterDxe/ConSplitter.c:4861-4870 | the loop asks every console in order, and an error of one is reported but does not stop it |
| ConSplitterTextOut.TextOutSplitter.SetOne | MSM8916Pkg/Drivers/ConSplitterDxe/ConSplitter.c:4862-4865 | a console is asked for exactly its entry of the row, in any virtual mode |
| ConSplitterTextOut.ModeSetIs | MSM8916Pkg/Drivers/ConSplitterDxe/ConSplitter.c:4861-4870 | a console listed more than once ends in the last of its entries that it takes, and in its old mode if it takes none |
| ConSplitterTextOut.SetAgreed | MSM8916Pkg/Drivers/ConSplitterDxe/ConSplitter.c:4861-4870 | a console that has the geometry of the mode and does not refuse its entry ends in that geometry, however often it is listed |
| ConSplitterTextOut.TextOutSplitter.MapEntry | MSM8916Pkg/Drivers/ConSplitterDxe/ConSplitter.c:4861-4868 | the number found in the flat map at mode times step plus index is the table's entry |
| ConSplitterTextOut.HasRowAgrees | MSM8916Pkg/Drivers/ConSplitterDxe/ConSplitter.c:4861-4868 | that entry is the console's own mode of the geometry reported, from mode 2 on always and for modes 0 and 1 when the console has it |
| ConSplitterTextOut.TextOutSplitter.Narrow | MSM8916Pkg/Drivers/ConSplitterDxe/ConSplitter.c:2427-2486 | dropping rows of a live splitter keeps its invariant and the current mode's identity |
| ConSplitterTextOut.TextOutSplitter.NarrowAndSettle | MSM8916Pkg/Drivers/ConSplitterDxe/ConSplitter.c:2703-2714 | a splitter that loses its current mode goes to mode 0 and asks its consoles for it; any other leaves its consoles alone |
| ConSplitterTextOut.TextOutSplitter.AddLocal | MSM8916Pkg/Drivers/ConSplitterDxe/ConSplitter.c:3147-3185 | after adding a console the map, query data and mode count are those of the extended list |
| ConSplitterTextOut.TextOutSplitter.AddDevice | MSM8916Pkg/Drivers/ConSplitterDxe/ConSplitter.c:3127-3192 | adding a console keeps agreement of all virtual modes, 0 and 1 included, with all consoles, and narrows both splitters exactly when the scan of their lists finds a common console; no console changes mode but those of a splitter that lost its own |
| ConSplitterTextOut.TextOutSplitter.Rebuild | MSM8916Pkg/Drivers/ConSplitterDxe/ConSplitter.c:3400-3430 | the map rebuilt from nothing is that of adding the remaining consoles in order to an empty splitter |
| ConSplitterTextOut.TextOutSplitter.DeleteDevice | MSM8916Pkg/Drivers/ConSplitterDxe/ConSplitter.c:3319-3435 | removing a console leaves the modes that adding the survivors in order would have given, and the current mode number renumbered by that; a console that is not there is reported |
| ConSplitterTextOut.RebuiltModeRow | MSM8916Pkg/Drivers/ConSplitterDxe/ConSplitter.c:3400-3430 | after a removal the current mode is the row of the first survivor's own mode of the number that was current, or -1 when that is not offered |
| ConSplitterTextOut.MarkCommon | MSM8916Pkg/Drivers/ConSplitterDxe/ConSplitter.c:2652-2698 | the nested comparison flags in both splitters the rows of common geometries |
| ConSplitterTextOut.SyncShared | MSM8916Pkg/Drivers/ConSplitterDxe/ConSplitter.c:2581-2733 | when the scan finds a common console both splitters are narrowed, and one that lost its mode goes to mode 0 and asks its consoles, the console output first; otherwise nothing changes |
| ConSplitterTextOut.FindShared | MSM8916Pkg/Drivers/ConSplitterDxe/ConSplitter.c:2607-2634 | the scan compares console i of the first list with the places from i times the length of the second on, into whatever lies behind it |
| ConSplitterTextOut.ScanSafeRight | MSM8916Pkg/Drivers/ConSplitterDxe/ConSplitter.c:2607-2634 | the scan is right whatever lies behind the second list, if the first has at most one console, the second is empty, or the very first console is common |
| ConSplitterTextOut.ScanUnsafeWrong | MSM8916Pkg/Drivers/ConSplitterDxe/ConSplitter.c:2607-2634 | for all other lists there is a memory behind the second that makes it wrong |
| GraphicsModes.CommonHas | MSM8916Pkg/Drivers/ConSplitterDxe/ConSplitter.c:2836-2891 | the new buffer has a resolution exactly when the old one and the device both have it |
| GraphicsModes.CommonDistinct | MSM8916Pkg/Drivers/ConSplitterDxe/ConSplitter.c:2864-2888 | no resolution is in the new buffer twice |
| GraphicsModes.CommonOrder | MSM8916Pkg/Drivers/ConSplitterDxe/ConSplitter.c:2836-2888 | the new buffer keeps the order of the old one and gives up the frame buffer everywhere |
| GraphicsModes.Intersect | MSM8916Pkg/Drivers/ConSplitterDxe/ConSplitter.c:2836-2891 | the nested search computes that intersection |
| GraphicsModes.OffersMore | MSM8916Pkg/Drivers/ConSplitterDxe/ConSplitter.c:2836-2897 | a buffer that offers exactly what all devices so far have still does with one device more |
| GraphicsModes.GopSplitter.Supported | MSM8916Pkg/Drivers/ConSplitterDxe/ConSplitterGraphics.c:142-160 | every resolution in the buffer is a real mode of every attached device, so setting it fails only where a device refuses |
| GraphicsModes.GopSplitter.SetMode | MSM8916Pkg/Drivers/ConSplitterDxe/ConSplitterGraphics.c:112-201 | each device goes to its own first mode of the resolution unless it refuses; all at one resolution exactly when none refuses |
| GraphicsModes.SetAll | MSM8916Pkg/Drivers/ConSplitterDxe/ConSplitterGraphics.c:142-163 | an error of one device does not keep the others from being set |
| GraphicsModes.PickMode | MSM8916Pkg/Drivers/ConSplitterDxe/ConSplitter.c:2910-2931 | picks the first entry of the new device's resolution, or else the first of 800 by 600, or else entry 0 |
| GraphicsModes.GopSplitter.AddDevice | MSM8916Pkg/Drivers/ConSplitterDxe/ConSplitter.c:2788-3021 | the buffer is the intersection of all; its first entry of the resolution the device was in, or else of 800 by 600, or else entry 0, is in force afterwards, with no device but the new one asked when that resolution already was, and all asked otherwise; only when one refuses is entry 0 overwritten with 800 by 600 and tried on all |
| GraphicsModes.GopSplitter.ForceMode | MSM8916Pkg/Drivers/ConSplitterDxe/ConSplitter.c:2981-3021 | the new device, or all of them, end in the picked mode and the current mode names it, with every device's mode told; exactly when one of all refuses it, entry 0 becomes 800 by 600 and success means that all took that |
| GraphicsModes.GopSplitter.DeleteDevice | MSM8916Pkg/Drivers/ConSplitterDxe/ConSplitter.c:3336-3350 | the remaining devices still support every mode of the buffer and stay in one resolution |
| GraphicsModes.GopSplitter.QueryMode | MSM8916Pkg/Drivers/ConSplitterDxe/ConSplitterGraphics.c:39-94 | every number below the number of modes is answered, with a resolution that every attached device has, and with the one that setting it leads to when the buffer is in place |
| GraphicsModes.GopSplitter.QueryMatchesExactly | MSM8916Pkg/Drivers/ConSplitterDxe/ConSplitterGraphics.c:62-90 | all modes are queried as the resolution that setting them leads to if and only if more than one device is left or the remaining one has the buffer's resolutions in the same places |
| GraphicsModes.GopSplitter.QueryMatchesAttached | MSM8916Pkg/Drivers/ConSplitterDxe/ConSplitterGraphics.c:62-90 | so it is as long as no device has been detached |
| GraphicsModes.GopSplitter.FitsDevice | MSM8916Pkg/Drivers/ConSplitterDxe/ConSplitterGraphics.c:62-74 | the buffer never offers more modes than the one device that is left |
| GraphicsModes.DetachedMismatch | MSM8916Pkg/Drivers/ConSplitterDxe/ConSplitterGraphics.c:39-201 | attaching two devices and detaching one leads to a splitter that queries mode 0 as one resolution and sets it as another |
| KeyNotify.ExDevice.RegisterKeyNotify | MSM8916Pkg/Drivers/KeypadDxe/KeypadTextIn.c:494-559 | a registration already covered by one of the same function gives back its handle; any other is appended or refused |
| KeyNotify.ExDevice.UnregisterKeyNotify | MSM8916Pkg/Drivers/KeypadDxe/KeypadTextIn.c:576-623 | removes exactly the registration of the handle, and fails exactly when there is none |
| KeyNotify.RegisterOnAll | MSM8916Pkg/Drivers/ConSplitterDxe/ConSplitter.c:4044-4068 | registers on every device up to the first that refuses, and after a refusal the devices are as they were exactly when no other client's registration covered it where it was tried |
| KeyNotify.UnregisterFirst | MSM8916Pkg/Drivers/ConSplitterDxe/ConSplitter.c:4056-4063 | the undoing loop restores the devices exactly when no other client's registration covered it on them |
| KeyNotify.GiveBack | MSM8916Pkg/Drivers/ConSplitterDxe/ConSplitter.c:4058-4062 | taking one registration back restores the device exactly when it had not been covered there |
| KeyNotify.TookAll | MSM8916Pkg/Drivers/ConSplitterDxe/ConSplitter.c:4044-4071 | once every device has taken a registration, the product is kept exactly when it was covered on none |
| KeyNotify.TextInSplitter.RegisterKeyNotify | MSM8916Pkg/Drivers/ConSplitterDxe/ConSplitter.c:3994-4077 | made on every device or on none; the product of devices and notify list is kept if and only if no other client's registration covers it on the devices up to the first that refuses |
| KeyNotify.TextInSplitter.UnregisterKeyNotify | MSM8916Pkg/Drivers/ConSplitterDxe/ConSplitter.c:4094-4131 | takes the registration back from every device and keeps the product, and fails exactly for an unknown handle |
| KeyNotify.TextInSplitter.AddExDevice | MSM8916Pkg/Drivers/ConSplitterDxe/ConSplitter.c:1960-2048 | a device joins with every registration made on it or not at all; the product is kept, or the refusing device restored, if and only if no other client's registration covers one of those tried |
| KeyNotify.AttachedOne | MSM8916Pkg/Drivers/ConSplitterDxe/ConSplitter.c:2011-2036 | attaching keeps the product exactly when every registration of the list became the device's own |
| KeyNotify.OwnAll | MSM8916Pkg/Drivers/ConSplitterDxe/ConSplitter.c:2011-2018 | all of a list becomes a device's own exactly when no other client's registration covers one of it |
| KeyNotify.CoveredOwn | MSM8916Pkg/Drivers/KeypadDxe/KeypadTextIn.c:521-533 | on a device being attached, what covers a further registration is another client's |
| KeyNotify.TextInSplitter.GrowHandles | MSM8916Pkg/Drivers/ConSplitterDxe/ConSplitter.c:1973-2003 | every handle list grows along with the device list and no handle in use changes |
| KeyNotify.TextInSplitter.UnregisterLast | MSM8916Pkg/Drivers/ConSplitterDxe/ConSplitter.c:2019-2027 | walking back leaves the device as it was exactly when no other client's registration covered one of those made |
| KeyNotify.TakenBack | MSM8916Pkg/Drivers/ConSplitterDxe/ConSplitter.c:2019-2027 | taking one registration back removes it, or, if another client's covered it, may remove that one instead |
| KeyNotify.UnregisterFromAll | MSM8916Pkg/Drivers/ConSplitterDxe/ConSplitter.c:4110-4117 | device i loses exactly the registration under handle i |
| KeyNotify.HoldsWithout | MSM8916Pkg/Drivers/ConSplitterDxe/ConSplitter.c:4110-4120 | dropping the handle of entry k leaves the registrations of the list without entry k |
| KeyNotify.DropAt | MSM8916Pkg/Drivers/KeypadDxe/KeypadTextIn.c:596-611 | removing by handle removes the one entry at its place |
| KeyRing.KeyQueue.PopHead | MSM8916Pkg/Drivers/KeypadDxe/KeypadTextIn.c:42-55 | gives the oldest key and leaves the rest in order, or reports an empty ring |
| KeyRing.KeyQueue.PushTail | MSM8916Pkg/Drivers/KeypadDxe/KeypadTextIn.c:63-73 | the ring holds the newest 255 keys in order; a full ring loses its oldest only |
| KeyRing.NewestTwice | MSM8916Pkg/Drivers/KeypadDxe/KeypadTextIn.c:63-73 | forgetting early or late makes no difference to which keys are left |
| KeyRing.Keypad.PushKey | MSM8916Pkg/Drivers/KeypadDxe/Keypad.c:137-177 | a key is queued for readers once and for the handler once per registration it hits; an empty key is dropped unless partial keys are wanted |
| KeyRing.Keypad.QueueMatches | MSM8916Pkg/Drivers/KeypadDxe/Keypad.c:156-174 | the walk over the registrations queues the key as often as it matches, and signals the handler if it did |
| KeyRing.Keypad.ProcessNotify | MSM8916Pkg/Drivers/KeypadDxe/KeypadTextIn.c:631-670 | the handler empties the queue and calls, key by key, every registration hit |
| KeyRing.GotOne | MSM8916Pkg/Drivers/KeypadDxe/KeypadTextIn.c:660-668 | one queued key reaches each registration it hits once and no other |
| KeyRing.Delivered | MSM8916Pkg/Drivers/KeypadDxe/Keypad.c:148-174 | without overflow each registration is called with exactly the keys that hit it and are not dropped, in order, each k times when it hits k registrations |
| KeyRing.Keypad.PressAndProcess | MSM8916Pkg/Drivers/KeypadDxe/Keypad.c:137-177 | a run of keys and then the handler: the calls are those of the newest 255 queued keys; unless more was queued, every registration gets what was waiting for it and then exactly what is due to it |
| KeyRing.RunDelivers | MSM8916Pkg/Drivers/KeypadDxe/KeypadTextIn.c:631-670 | draining the queue delivers to each registration what was waiting and what is due, after what it had got before |
| KeyRing.DueHits | MSM8916Pkg/Drivers/KeypadDxe/KeypadTextIn.c:88-114 | what is due to a registration are the pressed keys that hit it and are not dropped, all of them and no others |
| KeyRing.DueCount | MSM8916Pkg/Drivers/KeypadDxe/KeypadTextIn.c:88-114 | a key is due to a registration, once for each time it came and each registration it hits, exactly when scan code and character are the registered ones, shift and toggle state are too or are registered as zero, and it is not an empty key dropped for want of partial keys |
| KeyRing.MatchesSet | MSM8916Pkg/Drivers/KeypadDxe/Keypad.c:156-174 | a key is queued for the handler as often as there are registrations that it hits |
| KeyRing.KeyboardsAlike | MSM8916Pkg/Drivers/ConSplitterDxe/ConSplitter.c:1960-2048 | after any registering, unregistering and attaching, the same keys on any attached keyboard lead to the same calls, of the functions registered with the splitter, if the keyboards agree on partial keys and on what other clients registered |
| ClockTree.EnableDisable | MSM8916Pkg/Drivers/ClockDxe/clock.c:67-111 | releasing what was just acquired restores every count in the tree |
| ClockTree.EnableFails | MSM8916Pkg/Drivers/ClockDxe/clock.c:67-91 | an acquisition that fails anywhere up the tree leaves every count as it was |
| ClockTree.DisableApart | MSM8916Pkg/Drivers/ClockDxe/clock.c:93-111 | releasing a clock neither reads nor writes the count of a higher one |
| ClockTree.StartChild | MSM8916Pkg/Drivers/ClockDxe/clock.c:75-88 | the first acquisition turns a hold on the parent into a running child and a hold on the clock |
| ClockTree.StopChild | MSM8916Pkg/Drivers/ClockDxe/clock.c:102-108 | the last release turns a running child back into a hold on its parent |
| ClockTree.EnableKeeps | MSM8916Pkg/Drivers/ClockDxe/clock.c:67-91 | a successful acquisition adds one hold to the balance of every count and nothing else |
| ClockTree.DisableKeeps | MSM8916Pkg/Drivers/ClockDxe/clock.c:93-111 | a release by a holder keeps the balance of every count |
| ClockTree.DisableFed | MSM8916Pkg/Drivers/ClockDxe/clock.c:93-111 | at every step of a release each clock that is on in hardware has its parent on |
| ClockTree.EnableFed | MSM8916Pkg/Drivers/ClockDxe/clock.c:67-91 | so it has at every step of an acquisition, successful or rolled back |
| ClockTree.RateKeeps | MSM8916Pkg/Drivers/ClockDxe/clock_lib2.c:128-140 | a rate change whose source was acquired keeps every count at or above its load |
| ClockTree.IdleRateKeeps | MSM8916Pkg/Drivers/ClockDxe/clock-local.c:150-178 | moving a clock that does not run keeps the balance without an acquisition |
| ClockTree.OldSourceKept | MSM8916Pkg/Drivers/ClockDxe/clock_lib2.c:128-140 | a running clock that changes source leaves exactly one acquisition behind on the old one |
| ClockTree.RateOnRefusedSource | MSM8916Pkg/Drivers/ClockDxe/clock_lib2.c:132-140 | going on after a refused source leaves every running clock fed if and only if the moved clock does not run |
| ClockTree.PerformKeeps | MSM8916Pkg/Drivers/ClockDxe/clock.c:67-111 | each operation, rate changes of running, idle and refused clocks among them, keeps the balance, exactly so unless a running clock changes source |
| ClockTree.RunKeeps | MSM8916Pkg/Drivers/ClockDxe/clock.c:67-111 | in every run each count is at least holds plus running children, equal to it unless a source was acquired for a rate change, and no running clock sits on a stopped parent |
| ClockTree.OpFed | MSM8916Pkg/Drivers/ClockDxe/clock.c:67-111 | through every gate write of an operation each gate that is on has its parent on, and then exactly the running clocks are on |
| ClockTree.RunFed | MSM8916Pkg/Drivers/ClockDxe/clock.c:67-111 | so it is through every gate write of every run |
| ClockTree.EnableGood | MSM8916Pkg/Drivers/ClockDxe/clock.c:67-91 | an acquisition that no gate refuses succeeds |
| Clocks.ClkEnable | MSM8916Pkg/Drivers/ClockDxe/clock.c:67-91 | the recursive call on objects has the tree's outcome, counts and gate writes in order |
| Clocks.SwitchOn | MSM8916Pkg/Drivers/ClockDxe/clock.c:75-87 | the first acquisition takes the parent first and gives it back when the clock's own gate refuses |
| Clocks.ClkDisable | MSM8916Pkg/Drivers/ClockDxe/clock.c:93-111 | the recursive release has the tree's counts and gate writes in order |
| Clocks.SwitchOff | MSM8916Pkg/Drivers/ClockDxe/clock.c:102-107 | the last release switches the gate off before it releases the parent |
| Clocks.FindEntry | MSM8916Pkg/Drivers/ClockDxe/clock_lib2.c:119-126 | finds the first table entry of the rate, or runs off the end |
| Clocks.RcgSetRate | MSM8916Pkg/Drivers/ClockDxe/clock_lib2.c:113-143 | the clock moves to the new source, acquired or not, with the gate writes of the attempt, and never releases the old one; a rate not in the table changes nothing |
| Clocks.LocalSetRate | MSM8916Pkg/Drivers/ClockDxe/clock-local.c:144-194 | an enabled clock acquires its source first and a refusal leaves counts and frequency alone, with the gate writes of the attempt; one never enabled just moves |
| Clocks.Ask | MSM8916Pkg/Drivers/ClockDxe/clock.c:67-127 | a request contributes an acquisition, a release exactly when the caller holds the clock, or a move to the source of the first table entry of the rate, none when there is no such entry or it is in force |
| Clocks.RateTaken | MSM8916Pkg/Drivers/ClockDxe/clock-local.c:144-194 | a rate in the table is in force after the request, on its own source, which runs unless the clock was never enabled; a source that refuses, or a rate not in the table, changes neither tree nor entry |
| Clocks.HoldsCount | MSM8916Pkg/Drivers/ClockDxe/clock.c:67-111 | in every run the holds on a clock are those at the start and the acquisitions that succeeded less the releases |
| Clocks.DisableTurnsOff | MSM8916Pkg/Drivers/ClockDxe/clock.c:93-111 | a release switches no gate on |
| Clocks.RunRequests | MSM8916Pkg/Drivers/ClockDxe/clock.c:67-127 | any run of enable, disable and rate calls on clock objects is a run of the tree, gate write by gate write, to which every request contributes exactly its own operation; the caller ends up holding what it held and acquired less what it released; counts cover their load, the hardware is fed at every write and exactly the running clocks are on |
| ClockBanks.BankedClock.SetRateMndBanked | MSM8916Pkg/Drivers/ClockDxe/clock-local.c:286-377 | while the clock runs every single register write keeps all fields of the bank selected at that moment; at the end the selected bank holds exactly the new rate, the other is parked and no unrelated bit has changed |
| ClockBanks.BankedClock.Program | MSM8916Pkg/Drivers/ClockDxe/clock-local.c:313-344 | a bank that is not selected is programmed completely with no write disturbing the selected one |
| ClockBanks.BankedClock.Switch | MSM8916Pkg/Drivers/ClockDxe/clock-local.c:350-367 | the select bit is flipped to a finished bank and only then is the old one stopped and parked |
| ClockBanks.SelectFlips | MSM8916Pkg/Drivers/ClockDxe/clock-local.c:351-352 | toggling the one select bit selects the other bank |
| BamFifo.AndMask | MSM8916Pkg/Drivers/BamDxe/bam.c:261-266 | masking with one less than a power of two is the remainder |
| BamFifo.ChunksPartition | MSM8916Pkg/Drivers/BamDxe/bam.c:346-376 | the descriptors partition the buffer in order, none empty or too long, with the flags on the last only |
| BamFifo.FillPlaces | MSM8916Pkg/Drivers/BamDxe/bam.c:296-307 | descriptor k lands k slots on around the ring and no other slot is written |
| BamFifo.Pipe.FifoInit | MSM8916Pkg/Drivers/BamDxe/bam.c:175-215 | an accepted ring starts at slot 0 with the offset of the next slot |
| BamFifo.Pipe.ReadOffsetUpdate | MSM8916Pkg/Drivers/BamDxe/bam.c:276-290 | current slot and offset follow what hardware reports |
| BamFifo.Pipe.SysGenEvent | MSM8916Pkg/Drivers/BamDxe/bam.c:249-267 | announces the masked offset, except for a whole ring's worth or more |
| BamFifo.Pipe.AddOneDesc | MSM8916Pkg/Drivers/BamDxe/bam.c:391-451 | writes the descriptor and steps on exactly when pointer, length, pipe and flags are good, and otherwise nothing |
| BamFifo.Pipe.WriteDescs | MSM8916Pkg/Drivers/BamDxe/bam.c:346-372 | the loop writes the chunks to consecutive slots around the ring, less what an uninitialised pipe or clashing flags lose |
| BamFifo.Pipe.AddDesc | MSM8916Pkg/Drivers/BamDxe/bam.c:317-381 | the whole buffer is written and announced, with the offset of the new current slot if and only if the ring is no larger than 8192 or the slot is not in its upper half; the result says only whether it was tried |
| BamFifo.AfterMod | MSM8916Pkg/Drivers/BamDxe/bam.c:296-307 | stepping n times around the ring is adding n modulo its size |
| BamFifo.EventRight | MSM8916Pkg/Drivers/BamDxe/bam.c:261-266 | the announced offset is that of the new current slot if and only if the pipe's offset was that of the slot after the current one |
| BamFifo.FreshEventRight | MSM8916Pkg/Drivers/BamDxe/bam.c:193-207 | after set-up or an offset update the announced offset is right if and only if the ring is no larger than 8192 or the slot is not in its upper half |
| BamFifo.StaleEvent | MSM8916Pkg/Drivers/BamDxe/bam.c:276-290 | a second transfer without reading the offset again announces the right offset if and only if the first went once around the ring, or, where the first was announced wrongly, took half of it |
| I2cTags.DecodeEncode | MSM8916Pkg/Drivers/I2cQupDxe/i2c_qup.c:741-759 | decoding the tags of any accepted transfer gives its messages in order with one stop, at the end |
| I2cTags.Faithful | MSM8916Pkg/Drivers/I2cQupDxe/i2c_qup.c:741-759 | and they are exactly the ones asked for if and only if addresses have seven bits and lengths eight |
| I2cTags.ReadsInFull | MSM8916Pkg/Drivers/I2cQupDxe/i2c_qup.c:748-761 | tag length, length asked for and bytes handed on agree if and only if the read is of at most 60 bytes |
| I2cTags.BuildTags | MSM8916Pkg/Drivers/I2cQupDxe/i2c_qup.c:741-759 | the tags fill the buffer in order without running past its 64 bytes |
| I2cTags.BytesPack | MSM8916Pkg/Drivers/I2cQupDxe/i2c_qup.c:810-814 | unpacking any number of bytes of a packed stream gives those bytes |
| I2cTags.PackWord | MSM8916Pkg/Drivers/I2cQupDxe/i2c_qup.c:811-813 | the shifting loop gives the little-endian word of the next up to four tags |
| I2cEngine.QupDev.PollState | MSM8916Pkg/Drivers/I2cQupDxe/i2c_qup.c:239-267 | ends within 2000 reads, with success only after a valid state that is the one asked for |
| I2cEngine.QupDev.UpdateState | MSM8916Pkg/Drivers/I2cQupDxe/i2c_qup.c:269-282 | asks for a state at most once and succeeds only when it was seen reached |
| I2cEngine.QupDev.WaitDone | MSM8916Pkg/Drivers/I2cQupDxe/i2c_qup.c:817-842 | ends within its bound, with success only after the transfer was seen done without a missing acknowledge |
| I2cEngine.QupDev.PushTags | MSM8916Pkg/Drivers/I2cQupDxe/i2c_qup.c:810-814 | the output FIFO gets exactly the packed tags in order |
| I2cEngine.QupDev.ReadFifo | MSM8916Pkg/Drivers/I2cQupDxe/i2c_qup.c:844-850 | the local buffer gets the bytes of the words read |
| I2cEngine.QupDev.Drain | MSM8916Pkg/Drivers/I2cQupDxe/i2c_qup.c:843-852 | the caller gets the reply from its third byte on, and nothing past its length is touched |
| I2cEngine.QupDev.Exchange | MSM8916Pkg/Drivers/I2cQupDxe/i2c_qup.c:779-856 | a transfer that succeeds wrote exactly the scripted registers in order and saw the controller done |
| I2cEngine.QupDev.Transfer | MSM8916Pkg/Drivers/I2cQupDxe/i2c_qup.c:669-861 | every exit is reached within a fixed number of register reads with the transfer flag cleared; failure leaves the reply buffer alone, success sent the tags and returned the reply |
| I2cEngine.ScriptDelivers | MSM8916Pkg/Drivers/I2cQupDxe/i2c_qup.c:779-816 | what a transfer feeds the controller, unpacked, decodes to its messages with one stop, at the end, and the announced count is the number of tags |
| I2cEngine.ScriptCounts | MSM8916Pkg/Drivers/I2cQupDxe/i2c_qup.c:794-801 | the count of tags is announced as it is, and exactly when the last message reads, the two byte header and the bytes to be handed on are, to both input counters |
| I2cEngine.ReplyRight | MSM8916Pkg/Drivers/I2cQupDxe/i2c_qup.c:843-852 | a reply packed as the tags are is handed on from its third byte on, whatever it holds |
| DsiPll.NoOverflow | MSM8916Pkg/Drivers/DisplayDxe/mipi_dsi_autopll.c:137-150 | no intermediate value leaves its 32 or 64 bit variable up to 750 MHz |
| DsiPll.FindRate | MSM8916Pkg/Drivers/DisplayDxe/mipi_dsi_autopll.c:95-104 | finds the entry of the lowest rate not below the request |
| DsiPll.ComputeFields | MSM8916Pkg/Drivers/DisplayDxe/mipi_dsi_autopll.c:126-166 | the machine arithmetic gives the fields of the unbounded one |
| DsiPll.Pll.AutoPllConfig | MSM8916Pkg/Drivers/DisplayDxe/mipi_dsi_autopll.c:82-193 | programs those fields, the tightest loop filter, the given dividers and the constant registers, and no others, or reports an error as 255 and writes nothing; registers 0x98 and 0x94 hold the calibration frequency in megahertz, 0x3c, 0x44 and 0x40 in fractional mode and 0x38 in integer mode the divider |
| DsiPll.GeneratedIs | MSM8916Pkg/Drivers/DisplayDxe/mipi_dsi_autopll.c:140-150 | the frequency given to calibration is the request less its remainder by 3840 Hz |
| DsiPll.Calibration | MSM8916Pkg/Drivers/DisplayDxe/mipi_dsi_autopll.c:149-166 | the two calibration bytes hold the whole megahertz of that value |
| DsiPll.FractionalError | MSM8916Pkg/Drivers/DisplayDxe/mipi_dsi_autopll.c:126-156 | the frequency decoded from the registers is at most the request and less than 4426 Hz below it |
| DsiPll.FieldsMean | MSM8916Pkg/Drivers/DisplayDxe/mipi_dsi_autopll.c:126-166 | field by field, what a request is turned into: its calibration frequency, and its divider with the error bound in fractional mode and exactly in integer mode up to 32 |
| DsiPll.IntegerExact | MSM8916Pkg/Drivers/DisplayDxe/mipi_dsi_autopll.c:126-163 | in integer mode it is the request if and only if the divider is at most 32 |
| DsiPll.IntegerAmbiguous | MSM8916Pkg/Drivers/DisplayDxe/mipi_dsi_autopll.c:157-163 | two integer-mode requests get the same SDM fields if and only if they are 32 references apart |
| DsiPll.BytesFrom | MSM8916Pkg/Drivers/DisplayDxe/mipi_dsi_autopll.c:148-163 | the fields fit their bytes if and only if the request is at least 38.4 MHz, or 19.2 MHz |
| DsiPll.Distinguished | MSM8916Pkg/Drivers/DisplayDxe/mipi_dsi_autopll.c:126-163 | requests further apart than the error bound never decode to the same frequency, nor in the wrong order |

## Left out

- Glyphs: drawing a character overwrites its cell or its two cells with what the font gives for it; font lookup, missing glyphs, packages and the logo are not modelled.
- Display transfers: what lies outside the display is ignored; the UGA paths of the console and the splitter are not modelled.
- Memory exhaustion, task priority levels, delays, protocol plumbing and driver binding; a device's own refusal is a parameter instead.
- GraphicsConsole.Console.OutputString: strings on which the loop does not end are excluded.
- GraphicsConsole.Console.SetAttribute: a change before the first mode has been set is excluded; the original toggles the cursor by a mode numbered -1 there.
- GraphicsConsole.Console.SetMode: a second call after the very first mode was refused is excluded for the same reason: a line buffer exists by then while the mode is still -1.
- GraphicsConsole.Console.Run: while a refused mode has left the cursor off, only modes are set and the screen is cleared; other calls would draw a second cursor.
- Text consoles whose queries fail for modes other than 1: the original leaves such query data stale. `Honest` is required of every console that is added.
- ConSplitterTextOut.TextOutSplitter.AddDevice: what lies in memory behind the second list is a parameter; choosing and setting the preferred mode after an add is not modelled.
- TextModeTable.ScanEntry: says nothing of a row that is uncovered by a failing mode 1, where the row that showed its geometry before it has just been blanked; ScanAgrees holds of it.
- GraphicsModes.GopSplitter.AddDevice: devices with no resolution in common are excluded, because the original then reads an entry of the new buffer that it has not written.
- Graphics devices that change mode behind the splitter's back, as their own console driver may.
- KeyNotify.TextInSplitter.AddExDevice: other clients' registrations on a device stay as they were when it was attached; the toggle state sent to a new device and the key queue that grows along with the device list are not modelled.
- Detaching a keyboard: the original does not shift the handle lists, so handle i is then no longer device i's.
- ReadKeyStrokeEx of the splitter, which merges the key states of all keyboards.
- KeyRing.Keypad.ProcessNotify: the registrations do not change while the handler runs.
- Clock counts are unbounded, so the 32-bit wrap is not modelled. A root clock's parent is the source of its current entry, as local_clk_get_parent gives it, although the clock table of this platform registers no such function; the further clock that a local clock may depend on is taken to be none.
- Waits for a clock or DMA status bit, register addresses of gates, and how a root clock's dividers are programmed apart from the two-bank case; Clocks.RcgSetRate and Clocks.LocalSetRate state the tree and the gates only.
- Clocks.RunRequests: sources of the second library's rate changes do not refuse, as RateOnRefusedSource says what happens when they do.
- ClockBanks.BankedClock.SetRateMndBanked: registers and masks are sets of bit numbers, and the masks of the two banks and the select bit are taken not to overlap.
- BamFifo.Pipe.AddDesc: a buffer lies within 32-bit addresses, and the descriptor pointer is a slot number.
- BamFifo.Pipe.ReadOffsetUpdate: hardware reports an offset of a descriptor of the ring.
- I2cEngine.QupDev.Transfer: messages whose tags do not fit the 64-byte buffer, which the original overruns, are excluded; the pin set-up of one base address, debug reads and the clock divider computed before the first transfer are not modelled. The interrupt-driven engine after line 862 is never reached.
- DsiPll.Pll.AutoPllConfig: the order of the register writes, the PHY reset and the delays are not modelled. What bit 5 of the first SDM register means is read off the code that sets it.

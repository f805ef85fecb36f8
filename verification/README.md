# What is modelled

Six pieces of this repository whose meaning is simple and whose code is not, each with its meaning written down
independently and the code proved against it.

1. **The terminal renderer** (`tmux/render.c`) against the repository's own terminal (`_lib/vt.c`). The renderer keeps
   beliefs about the terminal (shadow rows, wrap flags, cursor, rendition) and sends cursor moves, SGR codes, erases,
   scrolls and deliberate wraps. `Render` is that code as a class; beside its fields it carries the terminal as a ghost
   value, changed by exactly the operations emitted (`TermOps.Step`, in terms of `Vt`). After every frame of every run the
   terminal shows that frame: it paints what the frame paints, `Paint` saying what a cell puts on the glass; and a frame
   that is the same as the one before costs nothing. `Wire` and `Session` take the same statement to the bytes:
   `Wire.FeedOps` shows that the parser reads the bytes of the operations as the operations, so a terminal fed the
   renderer's bytes shows every frame.
2. **The terminal** (`_lib/vt.c`). `Vt` and `VtParser` say on values what each operation and each byte does; their results
   are well-formed for all input. `Grid`, `Display`, `Dispatch`, `Terminal` and `Live` are the same code in place, over row
   pointers, flags and buffers in the heap, and do exactly what the model on values says, for every byte stream and every
   interleaving of changes of size. What those operations are is said once more without them, of the bytes of each sequence
   with any parameters, fed to a terminal in any state: row by row and cell by cell in `EditLaws`, for the cursor, the tab
   stops, the region, the modes and the rendition in `CursorLaws`, for characters, line drawing and strings in `PrintLaws`,
   and over whole streams for the saved cursor and the screen behind the alternate one in `SavedState` (`Sequences` reads
   the parameters). `Lines`, `Reflow`, `ReflowSteps` and `Resize` are the two-pass re-layout; `Transcript`, `ReflowText`,
   `KeptLines`, `HistoryText`, `ReflowKeeps` and `ReflowCells` prove when it conserves text and cells, and that it keeps the
   cursor in its line; `OrphanHalf` has the byte streams after which it does not. `HistoryRuns` says which rows a byte
   stream takes off the top of the screen and that the history is made of exactly those, `PlainOutput` what plain text
   leaves on the screen and in the history, `StoredText` that the history is always bounded, well-formed text, `ResizeLaws`
   what a change of size keeps and how it uses its room.
3. **Inflate** (`mc/mc.c`). `Huffman` has canonical codes as RFC 1951 (section 3.2.2) numbers them, `Deflate` the meaning of
   a stream of blocks over bits, `DeflateEncode` a reference encoder (any blocks, matches, code lengths and run-length
   coding a valid stream may have), `Inflate` the code with its bit buffer and sliding window, `InflateCorrect` the round
   trip. `DeflateTables` has the tables by their rules and streams given by lengths and distances instead of symbols,
   `FixedCodes` the order of codes, the fixed codes and a stream byte by byte,
   `DeflateRefusals` the damage that is refused.
4. **SSH transport and flow control** (`mssh/mssh.c`). `Packets` has framing, encryption with an arbitrary cipher and both
   ends of one direction with the wire between; `Keystream` which bytes of the keystream each part of a packet uses, and
   that none is used twice; `Transport` the code on its buffers and sequence numbers; `MessageLaws` the messages it keeps to
   itself, as they are numbered; `Exchange` two connections talking, as a run of that model; `Channel` the window
   accounting, over whole sessions.
5. **Heapsort** (`sort/sort.c`). `Compare` has the comparators against their meaning: which of two lines comes first, by the
   first byte that differs or by the numbers written. `Sort` has the sort in place and the output, down to the texts of the
   lines.
6. **Arithmetic**: 64-bit division from 32-bit steps (`_arch/arm-div.c`) and by shifting (`mc/mc.c`) in `Division`, dates in
   `Calendar`.

Conventions: integers are unbounded, so widths are written out (`% 0x1_0000_0000`, clamps, saturation). Bytes are numbers below
256. A sub-sequence of C that ends the program (`die`) is a result (`Died`, `NoMessage`, `false`). A ghost parameter or field
never influences what is computed.

Results about the code that its comments do not say:

- `udiv64` is exact for every non-zero denominator, although its remainder has no room for a 65th bit: the remainder is never
  more than the part of the numerator shifted in so far. For the same reason the carry test of `divmod32_tail`, which is needed
  for its own contract, never fires for the arguments `uldivmod64_impl` gives it (`Division.ULDivMod64`, `lost`).
- A row of 1024 columns or more can lose its end in the history: it is encoded in a buffer of 4096 bytes
  (`HistoryText.RowsKeptWholeIffNarrow`).
- `lay_line` copies the cell after a line if and only if the line ends in an odd number of first halves of wide characters
  (`Lines.ReadsPastIff`). ICH can leave such a line: on four columns `ab`, a wide character, cursor home and `ESC [ @`. A change to
  six columns then shows the first character of the next line at the end of that line too (`OrphanHalf.ShownTwice`), or, if no line
  follows, whatever the memory held (`OrphanHalf.UnwrittenShown`; the model takes that cell as an arbitrary parameter, `junk`).
  Reflow conserves text exactly where no such copied cell shows something (`ReflowKeeps.ReflowKeepsText`).
- `emit_move` writes the shortest of the moves it considers except at the left margin: from a known column 0 to column 0 of another
  row it writes a carriage return that is not needed (`Moves.ShortestIff`).
- The two halves of a key have to differ: if they were the same, a packet's length would be encrypted with the first bytes of its
  MAC key, and that is the only case in which a byte of the keystream has two uses in a packet (`Keystream.OneUse`).
- The clamp `crow < nr ? crow : nr - 1` at the end of `reflow` never fires (`ReflowKeeps.ReflowKeepsCursor`).
- `render_init` takes the terminal's cursor to be visible; the model asks that it is.

## Model

| member | source | states |
|---|---|---|
| Render.Play | tmux/main.c:139-174 | whichever frames, moves, SGR forms, erases, gap fills, scrolls and early returns occur: after each call the terminal shows and paints that frame (cells, wrap flags, cursor, visibility, status row), and the beliefs are true again, for every run; nothing is sent for a frame that is the same as the one before |
| Render.RenderState.RenderScreen | tmux/render.c:621-690 | from any state where the beliefs hold, what is sent makes the terminal show and paint the screen and the status row, touches no other row, and the beliefs hold again; nothing then differs from what is recorded, and when nothing does nothing is sent |
| Render.ShowsPaints | tmux/render.c:621-690 | a terminal whose cells look as a screen's paints what the screen does: grounds, glyphs with their colours, underlines and strikes, the joins of its rows, its cursor |
| Paint.BlankPaints | tmux/render.c:239-246 | a cell is blank to the renderer exactly when it paints nothing but the default ground in one column, reverse video taken into account |
| Paint.LooksPaint | tmux/render.c:225-246 | cells the renderer takes to look the same paint the same |
| Paint.TrimmedPaints | _lib/vt.c:1252-1257 | and a cell is trimmed from a line's end exactly when it paints nothing but the default ground |
| Render.RenderState.FullRedraw | tmux/render.c:692-723 | the same from any terminal of the right size, whatever it shows |
| Render.RenderState.constructor | tmux/render.c:256-271 | the beliefs of a new renderer hold of any terminal with a visible cursor, the default rendition and no wrap flags |
| Render.RenderState.EmitMove | tmux/render.c:72-102 | the terminal's cursor goes where it is wanted, by whichever of CUP, CUU, CUD, LF, CHA, CR, CUF, BS is chosen, and the choice is that of Moves.MoveOps |
| Moves.ShortestIff | tmux/render.c:72-102 | neither CUP nor any combination of the moves considered takes fewer bytes, if and only if it is not a move along column 0 of at most three rows down, or one up, or of fewer digits than the number of the row (row 0 apart) |
| Moves.OneTooMany | tmux/render.c:91 | from column 0 of row 0 to column 0 of row 1 it writes two bytes where one would do |
| Moves.HorizontalIsShortest | tmux/render.c:91-95 | of CR, BS, CUF, CHA and nothing, the horizontal part is the shortest that reaches the column, but for the CR at column 0 |
| Render.RenderState.EmitSgr | tmux/render.c:143-168 | after the sequence sent, full or incremental, the terminal's rendition is the one wanted |
| Render.RenderState.PutCell | tmux/render.c:470-493 | the cell is shown, the shadow says so, and the cursor belief follows the terminal into a pending wrap |
| Render.RenderState.DrawRow | tmux/render.c:550-619 | the row looks as wanted, nothing else changes, and a wanted wrap is made when its cell is reached |
| Render.RenderState.InvalidateCursor | tmux/render.c:725-729 | with the cursor unknown the beliefs still hold, so the next move is absolute |
| Render.RenderState.ClearRowFlag | tmux/render.c:527-535 | takes the wrap flag off one row and leaves every other cell and flag as it was |
| Render.RenderState.MaybeScroll | tmux/render.c:402-434 | a scroll is made only if it leaves at least 32 cells fewer to draw, and the shadow moves as the terminal does; without one nothing is written |
| Render.RenderState.ScrollLines | tmux/render.c:372-397 | for both signs of the shift, shadow and flags end as the terminal's rows and flags do; rows below the region stay |
| Render.ScrollRuns | tmux/render.c:372-397 | region, DL or IL and reset, run by the terminal, move the rows and flags by the shift and nothing below them |
| Diff.ThreeReversals | tmux/render.c:353-365 | three reversals rotate |
| Diff.Rotate | tmux/render.c:353-365 | the rotation in place, over cells and over flags |
| Diff.RotationScrolls | tmux/render.c:372-397 | rotated and blanked, the shadow is the shadow scrolled, for both signs |
| Diff.RotationScrollsFlags | tmux/render.c:372-397 | the same of the wrap flags |
| Diff.CountChanged | tmux/render.c:328-350 | the count is the number of cells that differ from the shadow as it would be after the shift |
| Diff.CountAfterScroll | tmux/render.c:328-350 | counting ahead with a shift is counting after the shadow has moved |
| Diff.MostMatches | tmux/render.c:402-434 | the shift tried is one that as many rows as possible have moved by, and none if that is fewer than two |
| Diff.EqualRowsHashAlike | tmux/render.c:304-323 | rows that are equal to the renderer have equal hashes, so a useful shift is found by hash |
| SgrCodes.SgrParams | tmux/render.c:110-134 | the parameters written are those of the codes, in the order written |
| SgrCodes.FullRead | tmux/render.c:143-168 | handle_sgr reads the full sequence as exactly the target rendition, whatever was in force |
| SgrCodes.IncRead | tmux/render.c:143-168 | and the incremental one, from the rendition it was made for |
| SgrCodes.ParamsFit | tmux/render.c:110-134 | at most 15 of the parser's 16 parameters are used |
| Shadow.DrawnPrint | tmux/render.c:470-493 | a printed cell extends the part of the row that is drawn, over whatever wide characters it breaks |
| Shadow.DrawnFill | tmux/render.c:550-619 | blanks printed over a gap draw it |
| Wire.FeedOps | _lib/vt.c:1800-1940 | the parser takes the bytes of any operations as those operations |
| Wire.FeedChar | _lib/vt.c:1092-1138 | and the UTF-8 bytes of a character as that character |
| Wire.DecodeEncode | _lib/vt.c:1122-1133 | decoding undoes encoding for every code point up to 21 bits |
| Session.EveryFrameIsShown | tmux/render.c:621-690 | after the renderer's bytes up to any frame, a terminal that reads bytes shows that frame |
| Session.Watch | _lib/vt.c:1800-1940 | and so does the terminal changed in place, fed the same bytes |
| VtParser.FeedAll | _lib/vt.c:1800-1940 | for every byte stream: cursors, saved cursors and region stay in the grid, parameter, intermediate, OSC and UTF-8 counters in bounds |
| Terminal.Terminal.FeedBytes | _lib/vt.c:1800-1940 | the parser in place does, for every byte stream, what the model on values says; unless a byte of it resets the terminal, the grids are those there were (the second made at the first entry to the alternate screen, the two exchanged exactly when the alternate screen has come or gone), and the row pointers of each are a permutation of those it had |
| Terminal.Terminal.Feed | _lib/vt.c:1800-1940 | one byte |
| Terminal.Terminal.DispatchCsi | _lib/vt.c:687-1015 | control sequences |
| Terminal.Terminal.DispatchEsc | _lib/vt.c:1035-1080 | escape sequences |
| Terminal.Terminal.FeedUtf8 | _lib/vt.c:1092-1138 | characters from bytes, a bad continuation byte dropped with what came before it |
| Terminal.Terminal.CsiDigit | _lib/vt.c:1153-1158 | a digit goes into the current parameter, up to the overflow guard |
| Terminal.Terminal.CsiSep | _lib/vt.c:1160-1164 | a new parameter is 0 because those not begun always are |
| Dispatch.CsiEdit | _lib/vt.c:729-868 | the edits in place are those of the model on values; what these are is said by EditLaws |
| Dispatch.CsiMove | _lib/vt.c:687-727 | the cursor movements, with the tab stops, in the same way; what these are is said by CursorLaws |
| EditLaws.InsertsLines | _lib/vt.c:808-818 | ESC [ n L at any terminal: in the region, rows above the cursor's and below the region stay with their flags, n rows in the pen's colours come in, and row r + n is what row r was down to the region's foot; outside it nothing moves |
| EditLaws.DeletesLines | _lib/vt.c:819-829 | ESC [ n M: row r is what row r + n was, erased rows at the region's foot; rows captured only from row 0 of the main screen |
| EditLaws.Scrolls | _lib/vt.c:832-833 | SU and SD of the whole region, row by row, with the rows captured |
| EditLaws.FeedsLines | _lib/vt.c:441-448 | LF, VT, FF, IND and NEL: the region moves up at its last row only, and elsewhere the cursor goes down if there is a row |
| EditLaws.ReversesLine | _lib/vt.c:450-457 | RI: the region moves down at its first row only |
| EditLaws.ErasesDisplay | _lib/vt.c:730-756 | ED 0 to 3 and the others, cell by cell in reading order, and which rows lose their wrap flags |
| EditLaws.ErasesLine | _lib/vt.c:757-771 | EL 0, 1 and 2, cell by cell; only the first takes the flag off |
| EditLaws.EditsCells | _lib/vt.c:772-807 | ECH, ICH and DCH: which cell of the row each cell was, and which are erased in the pen's colours |
| EditLaws.ResetsAll | _lib/vt.c:1069-1074 | RIS: an erased screen of the same size, everything else as at first |
| CursorLaws.MovesVertically | _lib/vt.c:695-702 | CUU, CUD, CNL, CPL and VPA go where they say or as near as the screen (in origin mode the region) allows, and touch nothing else |
| CursorLaws.MovesHorizontally | _lib/vt.c:697-701 | and so do CUF, CUB and CHA |
| CursorLaws.Positions | _lib/vt.c:704-710 | CUP and HVP, counted from the region's top in origin mode, with parameters left out |
| CursorLaws.Controls | _lib/vt.c:578-595 | BS and CR |
| CursorLaws.TabStops | _lib/vt.c:581-588 | HT goes to the first stop after the cursor or the last column, CBT to the last stop before it or column 0 |
| CursorLaws.TabsCount | _lib/vt.c:713-726 | CHT and CBT by n are n of them |
| CursorLaws.SetsStops | _lib/vt.c:847-852 | HTS and TBC |
| CursorLaws.AsksPosition | _lib/vt.c:889-892 | DSR with 6 asks for the position and shows nothing |
| CursorLaws.SetsRegion | _lib/vt.c:855-867 | DECSTBM with any two parameters: a region of at least two rows, and the cursor home |
| CursorLaws.SetsOrigin | _lib/vt.c:904-905 | DECOM with its cursor movement |
| CursorLaws.OneNearest | _lib/vt.c:422-435 | as near as allowed is one position and no other |
| CursorLaws.SetsAutoWrap | _lib/vt.c:906-963 | DECAWM |
| CursorLaws.SetsVisible | _lib/vt.c:908-965 | DECTCEM |
| CursorLaws.SetsInsert | _lib/vt.c:839-844 | IRM |
| CursorLaws.SetsRendition | _lib/vt.c:616-657 | one SGR code: exactly which attributes are in force after it, and which colours |
| CursorLaws.ReadsRenditions | _lib/vt.c:616-681 | several are read one after the other, 38 and 48 with the colours that follow 5 |
| SavedState.RestoresCursor | _lib/vt.c:1039-1055 | saved by DECSC or CSI s and restored by DECRC or CSI u, whatever bytes come between that neither save nor reset: position, rendition and auto-wrap are those there were |
| SavedState.MainScreenReturns | _lib/vt.c:908-948 | whatever bytes come between entering and leaving the alternate screen, the main one comes back with its rows, flags, cursor, rendition and history |
| PrintLaws.PrintsChar | _lib/vt.c:484-566 | the UTF-8 bytes of a character are put_char of it |
| PrintLaws.CharFits | _lib/vt.c:499-566 | where a character goes, cell by cell: with its second half, in the pen's colours, pushing aside what insert mode pushes; a wrap that waits is made first, the row marked, or given up without auto-wrap |
| PrintLaws.CharDoesNotFit | _lib/vt.c:515-527 | a wide one in the last column: padding there, and the next row, or nothing without auto-wrap |
| PrintLaws.EncodeIs | _lib/vt.c:1092-1138 | the bytes are UTF-8 as section 3 of RFC 3629 has it |
| PrintLaws.Repeats | _lib/vt.c:781-787 | REP by n does what n more of the last character's bytes would |
| PrintLaws.Widths | _lib/vt.c:469-474 | kana, CJK, Hangul, fullwidth forms and emoji faces take two columns, joiners and selectors none |
| PrintLaws.DrawsBoxes | _lib/vt.c:476-482 | between ESC ( 0 and ESC ( B letters draw boxes |
| PrintLaws.StringsShowNothing | _lib/vt.c:1917-1938 | OSC, DCS, PM and APC strings show nothing, and after BEL, ST, CAN or SUB come characters again |
| Dispatch.PrivateModes | _lib/vt.c:897-1013 | DECSET and DECRST of any list of modes |
| Display.Display.PutChar | _lib/vt.c:484-566 | put_char in place: wrapping, padding, insert mode, both halves of a wide character |
| Display.Display.LineFeed | _lib/vt.c:441-448 | do_lf in place |
| Display.Display.ScrollUp | _lib/vt.c:338-382 | scroll_up in place with the rows captured |
| Display.Display.ScrollDown | _lib/vt.c:389-416 | scroll_down in place |
| Display.Display.EraseDisplay | _lib/vt.c:729-756 | ED with its wrap flags |
| Display.Display.EnterAlt | _lib/vt.c:215-228 | the alternate screen, its grid made when first needed, the two never sharing a row |
| Display.Display.Sgr | _lib/vt.c:605-681 | handle_sgr's loop is the model's recursion |
| Grid.Grid.ScrollUp | _lib/vt.c:338-382 | the row pointers after it are a permutation of those before, no row twice; the rows and flags are those moved up with blanks below |
| Grid.Grid.ScrollDown | _lib/vt.c:389-416 | the same downwards |
| Grid.Permuted | _lib/vt.c:338-416 | a permutation of distinct row pointers points to no row twice |
| Grid.Grid.RowsPermuted | _lib/vt.c:338-416 | whatever happens to a grid while it exists, its row pointers stay a permutation of the same rows, no row twice; Terminal.Terminal.FeedBytes says of whole byte streams which grids those are |
| Grid.Grid.InsertCells | _lib/vt.c:790-798 | ICH on the row in place |
| Grid.Grid.DeleteCells | _lib/vt.c:799-807 | DCH on the row in place |
| Live.Run | _lib/vt.c:1543-1560 | any interleaving of bytes and changes of size keeps the terminal in place well formed and equal to the model on values |
| Live.ResizeTerminal | _lib/vt.c:1543-1560 | vt_resize in place |
| Resize.Live | _lib/vt.c:1491-1560 | every state any interleaving reaches is valid (rows >= 1, columns >= 2) |
| Resize.ReflowScreen | _lib/vt.c:1324-1488 | the counting and the filling passes agree: exactly the counted rows are written, and the result is the layout |
| Resize.ResizeScreen | _lib/vt.c:1491-1541 | when it reflows and when it only cuts and clamps |
| PrintLaws.StringsShowNothingST | _lib/vt.c:1815-1825 | the same when ST is written as an escape |
| PrintLaws.BadBytes | _lib/vt.c:1092-1138 | a byte that continues nothing or starts no character is dropped, and one that does not continue the character begun with what there was of it: nothing is shown and the next byte starts afresh |
| PrintLaws.AbandonedSequence | _lib/vt.c:1886-1903 | a control character in a control sequence ends it unread |
| ResizeLaws.PlainResizeKeeps | _lib/vt.c:1503-1541 | the alternate screen, a screen with a region and one without a history keep every cell and flag inside both sizes, in both grids, what is new being blank; cursors as near as they fit, a region that was the screen the screen |
| ResizeLaws.ResizeSetsStops | _lib/vt.c:1543-1560 | tab stops at every eighth column of the new width; nothing at all if the size is the same |
| ResizeLaws.ThereAndBack | _lib/vt.c:1503-1541 | made larger and as large as before, such a screen is what it was |
| ResizeLaws.ReflowKeepsRest | _lib/vt.c:1464-1486 | a reflow fits the other grid and the saved cursors and changes nothing else |
| ResizeLaws.ReflowLeavesNoMore | _lib/vt.c:1443-1460 | rows leave the screen only while some do not fit, never the cursor's, and as many as it takes |
| ResizeLaws.ReflowKeepsCursorLine | _lib/vt.c:1415-1439 | the rows of the cursor's line stay around the cursor as they were, every cell inside both widths kept but for a wide character that would lose its second half, with their flags |
| ResizeLaws.ReflowTakesBack | _lib/vt.c:1383-1399 | lines come back only to a taller screen with no open line in the history, whole, while they fit, and as many as do |
| Lines.LayLine | _lib/vt.c:1292-1308 | counting and filling take the same rows, and what is written is the layout of the line |
| Lines.GatherUndoesLay | _lib/vt.c:1292-1308 | laid out at any width and gathered again without padding, a line is itself up to blanks at its end |
| Lines.RowsFilled | _lib/vt.c:1292-1308 | every row but a line's last is full, its last column left to padding only where a wide character follows |
| Lines.LaidRowsPaired | _lib/vt.c:1292-1308 | no wide pair is split over two rows |
| Lines.ReadsPastIff | _lib/vt.c:1292-1308 | the loop reads one cell past the line if and only if the number of first halves at the line's end is odd, whatever comes after it |
| Lines.ChunkedIff | _lib/vt.c:1292-1308 | and exactly then the cells do not fall into whole characters when read from the left |
| OrphanHalf.ShownTwice | _lib/vt.c:1292-1308 | a byte stream and a change of size after which the next line's first character also stands at the end of the line before it, and the text is not the text of before |
| OrphanHalf.UnwrittenShown | _lib/vt.c:1292-1308 | a byte stream and a change of size after which a cell never written is shown, whatever it holds |
| ReflowSteps.CollectLines | _lib/vt.c:1350-1373 | the lines in the buffer are those of the rows joined by wrap flags, without padding and blanks at the end |
| ReflowSteps.PullLines | _lib/vt.c:1383-1399 | the backward scan takes whole lines that fit, and counts the rows the forward scan fills |
| ReflowSteps.FillHistory | _lib/vt.c:1401-1414 | the forward scan lays out the lines the backward scan took |
| ReflowSteps.FillScreen | _lib/vt.c:1415-1439 | the lines above, the cursor's rows and the lines below, in order, into exactly `total` rows |
| ReflowSteps.ReadText | _lib/vt.c:1262-1283 | decode_text with its limit |
| ReflowKeeps.ReflowKeepsText | _lib/vt.c:1324-1488 | on screens of any width, when the history has room for the rows that go into it, none of them of more than 4092 bytes, and nothing is left below the bottom, history and screen together hold the same lines before and after (up to the cursor's line, blanks at line ends and blank lines after the last) if no line ends in an odd number of first halves with a cell after it that shows something, and (cells holding no newlines) only if |
| KeptLines.LinesKept | _lib/vt.c:1292-1308 | the lines as lay_line copies them hold the text of the lines collected, or, exactly where such a cell is copied, more than that |
| ReflowCells.ReflowKeepsCellsAbove | _lib/vt.c:1324-1488 | a line above the cursor's that falls into whole characters and stays on the screen is there with the same cells, colours and attributes included, all its rows but the last wrapping |
| ReflowCells.ReflowKeepsCellsBelow | _lib/vt.c:1324-1488 | and so is one below it |
| ReflowKeeps.ReflowKeepsCursor | _lib/vt.c:1441-1482 | the cursor keeps its row of text and its distance from its line's first row (less what scrolled off); no clamp is needed |
| ReflowKeeps.LaidOutText | _lib/vt.c:1401-1439 | whatever then becomes of them and however wide they are, the rows laid out after the history that is left hold the text of before under the same condition, and (cells holding no newlines) under no other |
| ReflowText.ScreenText | _lib/vt.c:1350-1373 | any rows, broken wide characters among them or not, and the lines collected from them are the same text |
| ReflowText.LaidText | _lib/vt.c:1292-1308 | any lines that end with a character, and the rows they are laid out in, are the same text |
| Transcript.RowBytesIs | _lib/vt.c:274-335 | what a row of at most 1023 columns leaves in the history |
| Transcript.RowBytesWhole | _lib/vt.c:274-335 | and any row of at most 4092 bytes of text |
| Transcript.NarrowIsShort | _lib/vt.c:274-335 | which rows of at most 1023 columns always are |
| Transcript.CaptureAppends | _lib/vt.c:274-335 | while there is room the history grows by exactly that |
| Transcript.SameTextLeft | _lib/vt.c:1324-1488 | text equal up to blanks at line ends stays so after any common beginning |
| HistoryText.TextOfDecoded | _lib/vt.c:1262-1283 | text decoded to cells and captured again is itself |
| HistoryText.CapturedRowReadsBack | _lib/vt.c:1262-1283 | decode_text of a captured row of at most 4092 bytes of text gives back its characters: all of them if it wraps, else all but exactly the blanks at its end, the newline taken off |
| HistoryText.PrintedReadsBack | _lib/vt.c:1262-1283 | if its wide characters are whole those are its cells, pairs included, column for column, but for colours, attributes and padding |
| HistoryText.HistoryIsSuffix | _lib/vt.c:274-335 | the history is at most SCROLLBACK_BYTES long and a suffix of everything captured, cut after a newline or, when what was held was down to a single open line too long for the row to fit, at the start of that row |
| HistoryText.DropsNoMore | _lib/vt.c:323-332 | no line is dropped that there was room for: the text from any line dropped on, with the new row, is longer than 32768 bytes |
| HistoryRuns.FeedAllCaptures | _lib/vt.c:1800-1940 | for every byte stream: the history is that of before, or an empty one since a reset, with exactly the rows captured that left the top of the main screen since (by LF, VT, FF, IND, NEL, wraps, REP, SU and DL), with their wrap flags, in that order |
| HistoryRuns.HistoryOfStream | _lib/vt.c:274-335 | so after any stream the history is a suffix, cut as said, of what it was and the text of the rows that left since |
| HistoryRuns.NothingLost | _lib/vt.c:338-382 | the rows and flags that leave in a scroll, and those that stay, are together those there were, in order |
| PlainOutput.OutputShown | _lib/vt.c:484-566 | after any lines of printable ASCII that fit the columns, each ended by CR and LF, the last of them are on the screen and the others have been captured, in order, on a screen of any size |
| PlainOutput.OutputKept | _lib/vt.c:274-335 | and while there is room the history is what it was and the text of those others, without the spaces at their ends |
| HistoryText.RowsKeptWholeIffNarrow | _lib/vt.c:274-335 | every row of n columns is captured whole if and only if n <= 1023 |
| StoredText.HistoryAlwaysWellFormed | _lib/vt.c:274-335 | for every interleaving of bytes and changes of size the history is bounded, well-formed text of characters that take columns |
| StoredText.FeedAllKeeps | _lib/vt.c:1800-1940 | every byte stream keeps the cells such that this holds |
| StoredText.ResizedStored | _lib/vt.c:1491-1541 | and so does every change of size |
| Huffman.HuffBuild | mc/mc.c:960-971 | the table's counts and symbols are those of the length vector, in canonical order |
| Huffman.CodeDecodes | mc/mc.c:974-991 | huff_decode on a symbol's canonical code returns it and consumes its length |
| Huffman.DecodesOnlyCodes | mc/mc.c:974-991 | for any vector, a symbol is returned if and only if the bits are its canonical code |
| Huffman.CodesFit | mc/mc.c:960-991 | in a vector that is not over-subscribed every code fits its length |
| Huffman.IndexInside | mc/mc.c:974-991 | the index stays inside the symbol table, for any vector |
| Inflate.InflateRaw | mc/mc.c:1126-1157 | on every input it ends, sends exactly the bytes the stream denotes with their number in total, or fails where the stream does |
| Inflate.Infl.Bits | mc/mc.c:921-940 | bits come least significant first, and the end of the input is an error |
| Inflate.Infl.PutByte | mc/mc.c:942-957 | window and flushed pieces together are the whole output, at least the last 32 KiB of it at hand |
| Inflate.Infl.CopyMatch | mc/mc.c:1011-1024 | every byte of a match is the one at logical position total - dist, also when the window slides meanwhile |
| Inflate.Infl.Decode | mc/mc.c:974-991 | huff_decode over the bit buffer |
| Inflate.Infl.Codes | mc/mc.c:993-1026 | the symbols of a block up to its end |
| Inflate.Infl.Stored | mc/mc.c:1029-1050 | stored blocks |
| Inflate.Infl.ReadHeader | mc/mc.c:1070-1121 | the code lengths of a dynamic block, run-length coding and limits included |
| DeflateEncode.ReadsStream | mc/mc.c:1126-1157 | any stream the reference encoder writes denotes the bytes it was written for |
| DeflateEncode.ReadsBook | mc/mc.c:1070-1121 | any dynamic header it writes is read as its code lengths |
| DeflateEncode.FixedOk | mc/mc.c:1053-1067 | the fixed codes are a proper code |
| InflateCorrect.InflateUndoesEncoding | mc/mc.c:1126-1157 | packed into bytes and read as bits again, the stream denotes those bytes |
| InflateCorrect.InflateEncoded | mc/mc.c:1126-1157 | inflate_raw succeeds on any encoded stream and sends exactly those bytes |
| DeflateTables.LengthTable | mc/mc.c:901-904 | the lengths 3 to 258 without gap or overlap, extra bits in the groups of section 3.2.5 of RFC 1951 |
| DeflateTables.DistanceTable | mc/mc.c:905-908 | the distances 1 to 32768 in the same way |
| DeflateTables.CodeLengthOrder | mc/mc.c:909-910 | the order in which the lengths of the code length code are sent, by its rule |
| DeflateTables.EveryMatchCoded | mc/mc.c:1007-1011 | every length from 3 to 258 and every distance from 1 to 32768, split into leading and other bits, is the symbol and extra bits that the tables read back as it |
| DeflateTables.CopyRepeats | mc/mc.c:1011-1024 | a copy is the last dist bytes again and again |
| DeflateTables.ItemsMean | mc/mc.c:993-1026 | under any two codes, pieces given by length and distance stand for what they say |
| DeflateTables.InflatePieces | mc/mc.c:1126-1157 | inflate_raw sends the bytes that any pieces stand for, written in a block with the fixed codes or with any codes sent |
| FixedCodes.CodesFollow | mc/mc.c:960-971 | codes of one length follow each other in the order of their symbols (section 3.2.2 of RFC 1951) |
| FixedCodes.FirstCode | mc/mc.c:974-991 | the first code of a length comes after the last of the length before, with a zero behind it |
| FixedCodes.ShortestCode | mc/mc.c:974-991 | and the first of the shortest codes is all zeros |
| FixedCodes.LongerBeyond | mc/mc.c:974-991 | longer codes come after shorter ones |
| FixedCodes.FixedCode | mc/mc.c:1053-1067 | the fixed codes of section 3.2.6, each by its bits |
| FixedCodes.FixedDistCode | mc/mc.c:1064-1065 | and those of the distances |
| FixedCodes.AbIsRead | mc/mc.c:1126-1157 | a six-byte stream with a copy that overlaps itself, bit by bit, and what it is read as |
| DeflateRefusals.RefusesType | mc/mc.c:1126-1157 | block type 3 is refused |
| DeflateRefusals.RefusesEnd | mc/mc.c:1126-1157 | and so is a stream that ends before its last block |
| DeflateRefusals.RefusesStored | mc/mc.c:1029-1050 | a stored block whose length is not the complement of what follows, or whose bytes are not all there |
| DeflateRefusals.RefusesCounts | mc/mc.c:1074-1083 | more than 286 literal and length codes or 30 distance codes |
| DeflateRefusals.RefusesNoEnd | mc/mc.c:1070-1121 | code lengths that give the end of the block no code |
| DeflateRefusals.RefusesRun | mc/mc.c:1087-1110 | a repeat of the length before with none before it, and one past the last length |
| DeflateRefusals.RefusesFar | mc/mc.c:993-1026 | a copy from before the first byte |
| DeflateRefusals.RefusesSymbol | mc/mc.c:993-1026 | the symbols 286 and 287 |
| Packets.PaddingAligns | mssh/mssh.c:587-600 | padding is 4 to 11 bytes and aligns to 8 (section 6 of RFC 4253) |
| Packets.PlainRoundTrip | mssh/mssh.c:587-621 | a packet sent in the clear is received as its payload, with what follows it |
| Packets.SealedRoundTrip | mssh/mssh.c:623-716 | and an encrypted one, for any stream cipher and MAC |
| Keystream.SealedIs | mssh/mssh.c:623-671 | an encrypted packet byte by byte: the MAC key is the first 32 bytes of block 0 of the main key, the body is encrypted from its block 1 on, the length with block 0 of the header key, and the MAC covers what is sent |
| Keystream.OneUse | mssh/mssh.c:645-662 | no byte of the keystream has two uses in a packet, if and only if the halves of the key differ |
| Keystream.NoByteTwice | mssh/mssh.c:623-671 | and none in a whole run of one key epoch, in one packet or in two |
| Keystream.NonceOfEach | mssh/mssh.c:623-640 | each packet sent under a key is encrypted with the nonce that is recorded for it |
| Keystream.BigEndian | mssh/mssh.c:581-585 | numbers and nonces most significant byte first |
| Keystream.PlainPacket | mssh/mssh.c:587-600 | a packet in the clear, spelt out |
| Keystream.XorBit | mssh/mssh.c:641-662 | exclusive or, bit by bit |
| Packets.TooLong | mssh/mssh.c:602-621 | longer packets are refused |
| Packets.Run | mssh/mssh.c:587-716 | after every run the wire holds exactly the packets in flight, each framed for the receiver as it will be by then, and no nonce is ahead of its number |
| Packets.NonceInjective | mssh/mssh.c:581-585 | sequence numbers and nonces correspond |
| Packets.ReceivedIsPrefix | mssh/mssh.c:587-716 | in every run the payloads received are a prefix of those sent |
| Packets.NumbersAgree | mssh/mssh.c:1194-1206 | the sender's sequence number is the receiver's and the packets in flight, across NEWKEYS, re-keys and the strict reset |
| Packets.NoNonceTwice | mssh/mssh.c:623-640 | no pair of key epoch and nonce is used for two packets |
| Packets.TakeDelivers | mssh/mssh.c:602-716 | whatever is in flight and fits is delivered next |
| Transport.Ssh.SendPlain | mssh/mssh.c:587-600 | the buffer sent is the packet |
| Transport.Ssh.SendSealed | mssh/mssh.c:623-671 | the buffer encrypted in place and sent is the packet; the last sequence number is refused |
| Transport.Ssh.ReceivePlainPacket | mssh/mssh.c:602-621 | what is received, and everything that ends the program |
| Transport.Ssh.ReceiveSealedPacket | mssh/mssh.c:673-716 | the MAC decides before anything is decrypted |
| Transport.Ssh.SendNewKeys | mssh/mssh.c:1194-1199 | NEWKEYS under the old keys, then the new ones, counting anew in strict mode |
| Transport.Ssh.TakeNewKeys | mssh/mssh.c:1201-1206 | the same for the receiving side |
| Transport.Ssh.ReceiveMessage | mssh/mssh.c:739-785 | the messages skipped, answered or fatal, and the one returned; what is sent meanwhile is one REQUEST_FAILURE packet for each request skipped that wanted an answer, in order, under the next numbers |
| MessageLaws.MessageComes | mssh/mssh.c:739-785 | behind any number of empty packets, IGNORE (2), DEBUG (4) and GLOBAL_REQUEST (80) the next message comes as it was sent, one answer due for each request that wanted one |
| MessageLaws.AsidePassed | mssh/mssh.c:746-753 | one of them, which in strict mode before the first NEWKEYS ends the program |
| MessageLaws.DisconnectEnds | mssh/mssh.c:758-765 | DISCONNECT (1) ends the program |
| MessageLaws.AnswerIs | mssh/mssh.c:771-779 | the answer is REQUEST_FAILURE (82) alone |
| MessageLaws.RefusesPlain | mssh/mssh.c:602-612 | a packet of length 0, one longer than 35000 bytes, and one whose padding is under four bytes or does not fit end the program |
| MessageLaws.RefusesForged | mssh/mssh.c:686-703 | and so does an encrypted packet with another MAC |
| Exchange.Converse | mssh/mssh.c:587-716 | two connections, whatever is sent, switched and received at them in whatever order, are the ends of the link that those very acts make: numbers, keys and wire agree with it, what was said and heard is what it has sent and received, and what is heard is a prefix of what was said |
| Exchange.ConversationIs | mssh/mssh.c:587-716 | while the numbers last and payloads fit, that is: one payload said for each act that sends, and the first n of them heard, n counting the acts that receive when there was one to receive |
| Transport.StrictTakesFirst | mssh/mssh.c:746-753 | in strict mode nothing can be slipped in before the first NEWKEYS |
| Channel.RunSession | mssh/mssh.c:1480-1626 | over every session, its events handled until one ends it: data sent and queue are the input up to its end, in order; the window, the queue and the number of bytes sent are those of Channel.Flowed on the grants in the packets, never more than granted; EOF goes once, exactly when the input has ended and is all out; every message sent is for the channel of the other side; what is shown is the data received, in order; and the server always has more than half a window |
| Channel.FlowIsLeast | mssh/mssh.c:1387-1391 | unless more than 32 bits are granted, the number of bytes sent is the smaller of the input and the grants |
| Channel.MeaningOfMessages | mssh/mssh.c:1598-1626 | data, extended data, window adjustments and EOF as RFC 4254 (section 5.2) frames them are taken as what they say |
| Channel.MessageBytes | mssh/mssh.c:1480-1516 | the messages spelt out |
| Channel.TruncatedMessages | mssh/mssh.c:1598-1626 | messages that end before what they announce end the session |
| Channel.Channel.SendInput | mssh/mssh.c:1523-1534 | input goes out as the window allows and waits otherwise, in order; within the announced room all of it goes out |
| Channel.Channel.FlushOutq | mssh/mssh.c:1506-1516 | the queue goes out until it is empty or the window is 0 |
| Channel.Channel.SendEof | mssh/mssh.c:1538-1542 | at once or after the queue |
| Channel.Channel.AddWindow | mssh/mssh.c:1387-1391 | the window grows by what is granted, up to 32 bits |
| Channel.Channel.Consumed | mssh/mssh.c:1544-1555 | what is shown is given back in one message once it comes to half a window, and not before; granted less received stays the window size less what is pending |
| Channel.Channel.Pump | mssh/mssh.c:1598-1626 | what a packet shows, grants and ends is what it says: its data given back as window, its grant added up to 32 bits and used for the queue at once, one that is too short ending the run |
| Channel.DataFitsPacket | mssh/mssh.c:1480-1493 | every data message fits the largest packet the peer takes |
| Channel.Sends | mssh/mssh.c:1480-1516 | what a message adds to the data, the windows and the EOFs of those before it |
| Compare.CompareNumber | sort/sort.c:54-97 | the sign of the difference of the two integers written, of any length |
| Compare.CompareText | sort/sort.c:26-47 | of what counts of the lines, the one that is a beginning of the other comes first, or else the one whose first differing byte is smaller |
| Compare.CompareLines | sort/sort.c:99-106 | which line comes before the other, for every option set: by the first differing byte of what counts, or by the numbers written, turned round by -r |
| Compare.OrderMeans | sort/sort.c:99-106 | the same of the order the sort is proved for |
| Compare.OrderTurns | sort/sort.c:99-106 | exchanging the lines turns the result round, in every mode |
| Compare.OrderChains | sort/sort.c:99-106 | the order is transitive, in every mode |
| Compare.OrderEqual | sort/sort.c:99-106 | which lines count as equal |
| Sort.SortLines | sort/sort.c:108-149 | the first n lines are in order and a permutation, for every option set, and what is behind them is as it was |
| Sort.RootIsLargest | sort/sort.c:108-149 | the first of a heap is the last in order |
| Sort.SiftStep | sort/sort.c:114-131 | one exchange keeps the heap but for one node |
| Sort.SortBuffer | sort/sort.c:175-201 | with room for every line, spare room or not, and only then: what is written is all lines in order, or with -u one of each class |
| Sort.SortInput | sort/sort.c:238-281 | the whole program on texts: what is written are the lines of the input, each as often as it is there, none before one it comes after, or with -u one of each kind |
| Sort.ExactlyOne | sort/sort.c:192-199 | with -u every line of the input counts as equal to exactly one line written, although only adjacent lines are compared |
| Sort.SplitIsInput | sort/sort.c:180-190 | the lines written again are the input, its last line ended |
| Sort.ClassGoesOn | sort/sort.c:192-195 | skipping a line equal to the one before it loses no class |
| Sort.ClassStarts | sort/sort.c:192-199 | and a line not equal to it starts a new one |
| Division.DivMod32Tail | _arch/arm-div.c:47-77 | 32 more bits of quotient and remainder, exact although one bit falls out on the left |
| Division.StepExact | _arch/arm-div.c:56-69 | the carry test and the subtraction modulo 2^64 are exact on the 65-bit number |
| Division.ULDivMod64 | _arch/arm-div.c:85-150 | quotient and remainder on every path, 0 and the numerator for a zero denominator |
| Division.UDiv64 | mc/mc.c:366-383 | the same by shifting, for every non-zero denominator |
| Division.DivisionUnique | _arch/arm-div.c:85-150 | the specification has one solution |
| Calendar.DaysOfCivil | mc/mc.c:459-471 | civil gives a date of the calendar, and days_of takes it back, for every day number |
| Calendar.CivilOfDays | mc/mc.c:1171-1181 | and the other way round, for every date of the calendar |
| Calendar.DaysGoUpByOne | mc/mc.c:1170-1181 | the next date has the next number, and 1 January 1970 has 0: what days_of is |
| Calendar.NoOverflow | mc/mc.c:457-471 | over the whole range of day numbers no step of either leaves 32 bits |

## Left out

- I/O and the clock: sockets, terminals, files and time are byte sequences and step inputs; running out of memory is not modelled.
- Render.Play: assumes screens whose wide characters are whole and whose cells hold printable characters of the width they are marked with, of the renderer's size, on a terminal of 2 to 65535 columns and rows with at least one row below; looks are compared, so a blank may differ in foreground and bold.
- Output buffering of the renderer and number formatting: the writes are a list of operations, and their bytes.
- The X11 build of the renderer.
- The terminal's title and OSC text, mouse, bracketed paste and application cursor modes, and the `vt.c` wire format: nothing else depends on them.
- Recovery from bad UTF-8: as it is, byte by byte (PrintLaws.BadBytes), with no claim that it finds its place again.
- Terminals of one column: insert mode blanks two cells there.
- ReflowKeeps.ReflowKeepsText: a row that goes into the history with more than 4092 bytes of text can be cut short there and is left aside; the "only if" is for screens on which no cell holds a newline, which only an overlong UTF-8 form can put there; what is lost when the history is full or rows are left below the bottom is not accounted for beyond HistoryText.HistoryIsSuffix.
- StoredText.HistoryAlwaysWellFormed: assumes that the one cell reflow may read without having written it holds something a cell can hold.
- Resize.ReflowScreen: works on the screen as a value; Live.ResizeDisplay reads it from the rows in the heap and puts the result into new ones.
- Inflate.InflateRaw: the caller's output function is a function of the number of the call.
- Key exchange, authentication and host keys: keys per epoch and the cipher are arbitrary functions; both ends agree on strict key exchange from the start.
- Packets.Run: one direction of a connection with an honest peer; what an attacker can put on the wire is not modelled beyond Transport.StrictTakesFirst.
- Channel.Channel.Pump: exit status, channel requests, keepalive answers and re-keying are not part of the flow and are passed over.
- Options and files of `sort`, the panels and dialogs of `mc`, and the rest of the repository.

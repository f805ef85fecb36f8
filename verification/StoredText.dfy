/** Whatever bytes come in and however the terminal is resized, the history is well-formed text (_lib/vt.c). */
module StoredText {
  import opened Cells
  import opened Utf8
  import opened Scrollback
  import opened Lines
  import opened Vt
  import opened VtParser
  import opened Reflow
  import opened ReflowSteps
  import opened Transcript
  import opened HistoryText
  import opened Resize
  import Width

  ghost predicate AllStorable(rows: seq<Row>) {
    forall r :: 0 <= r < |rows| ==> RowStorable(rows[r])
  }

  /** Every cell, shown or hidden, is one that put_char or an erase leaves, and the history is well formed. */
  ghost predicate Stored(s: Screen) {
    AllStorable(s.cells) && (s.hidden.Grid? ==> AllStorable(s.hidden.cells)) && HistoryOk(s.history)
  }

  /* ---- cells and rows ---- */

  lemma BlankStored(pen: Pen, cols: nat, n: nat)
    ensures Storable(BlankCell(pen)) && RowStorable(BlankRow(cols, BlankCell(pen)))
            && AllStorable(BlankGrid(n, cols, BlankCell(pen)))
    ensures Storable(BLANK) && RowStorable(Blanks(cols)) && AllStorable(BlankGrid(n, cols, BLANK)) && RowStorable([])
  {
    assert Keepable(SPACE);
  }

  lemma PrintedStored(pen: Pen, cp: nat, wide: bool)
    requires cp < CODE_LIMIT && Width.CpWidth(cp) >= 1
    ensures Storable(Printed(pen, cp, wide)) && Storable(Continued(Printed(pen, cp, wide)))
  {
    assert Keepable(SPACE);
  }

  lemma RowParts(a: seq<Cell>, b: seq<Cell>)
    requires RowStorable(a) && RowStorable(b)
    ensures RowStorable(a + b)
  {
    hide Storable;
  }

  lemma RowPart(a: seq<Cell>, i: nat, j: nat)
    requires RowStorable(a) && i <= j <= |a|
    ensures RowStorable(a[i..j])
  {
    hide Storable;
  }

  lemma RowCell(a: seq<Cell>, i: nat, c: Cell)
    requires RowStorable(a) && i < |a| && Storable(c)
    ensures RowStorable(a[i := c])
  {
    hide Storable;
  }

  lemma Joined(a: seq<Row>, b: seq<Row>)
    requires AllStorable(a) && AllStorable(b)
    ensures AllStorable(a + b)
  {
    hide RowStorable;
  }

  lemma Part(a: seq<Row>, i: nat, j: nat)
    requires AllStorable(a) && i <= j <= |a|
    ensures AllStorable(a[i..j])
  {
    hide RowStorable;
  }

  lemma Replaced(a: seq<Row>, i: nat, row: Row)
    requires AllStorable(a) && i < |a| && RowStorable(row)
    ensures AllStorable(a[i := row])
  {
    hide RowStorable;
  }

  lemma RowOf(a: seq<Row>, i: nat)
    requires AllStorable(a) && i < |a|
    ensures RowStorable(a[i])
  {
  }

  /* ---- the screen's operations ---- */

  /** A new row in place of the cursor's. */
  lemma CursorRowStored(s: Screen, row: Row, r: Screen)
    requires s.Valid() && Stored(s) && RowStorable(row)
    requires r.cells == s.cells[s.curRow := row] && r.hidden == s.hidden && r.history == s.history
    ensures Stored(r)
  {
    hide RowStorable, HistoryOk;
    Replaced(s.cells, s.curRow, row);
  }

  lemma ScrollUpStored(s: Screen, n: nat)
    requires s.Valid() && Stored(s)
    ensures Stored(ScrollUp(s, n))
  {
    hide RowStorable, HistoryOk, CaptureRows, AllStorable;
    var k := Min(n, s.bottom - s.top + 1);
    BlankStored(s.pen, s.cols, k);
    Part(s.cells, 0, s.top);
    Part(s.cells, s.top + k, s.bottom + 1);
    Part(s.cells, s.bottom + 1, |s.cells|);
    Part(s.cells, s.top, s.top + k);
    assert s.cells[0..s.top] == s.cells[..s.top] && s.cells[s.bottom + 1..|s.cells|] == s.cells[s.bottom + 1..];
    Joined(s.cells[..s.top], s.cells[s.top + k..s.bottom + 1]);
    Joined(s.cells[..s.top] + s.cells[s.top + k..s.bottom + 1], BlankGrid(k, s.cols, BlankCell(s.pen)));
    Joined(s.cells[..s.top] + s.cells[s.top + k..s.bottom + 1] + BlankGrid(k, s.cols, BlankCell(s.pen)),
           s.cells[s.bottom + 1..]);
    CapturedStored(s.history, s.cells[s.top..s.top + k], s.flags[s.top..s.top + k]);
  }

  lemma CapturedStored(h: History, rows: seq<Row>, flags: seq<bool>)
    requires HistoryOk(h) && |rows| == |flags| && AllStorable(rows)
    ensures HistoryOk(CaptureRows(h, rows, flags))
  {
    CaptureRowsOk(h, rows, flags);
  }

  lemma ScrollDownStored(s: Screen, n: nat)
    requires s.Valid() && Stored(s)
    ensures Stored(ScrollDown(s, n))
  {
    hide RowStorable, HistoryOk, AllStorable;
    var k := Min(n, s.bottom - s.top + 1);
    BlankStored(s.pen, s.cols, k);
    Part(s.cells, 0, s.top);
    Part(s.cells, s.top, s.bottom + 1 - k);
    Part(s.cells, s.bottom + 1, |s.cells|);
    assert s.cells[0..s.top] == s.cells[..s.top] && s.cells[s.bottom + 1..|s.cells|] == s.cells[s.bottom + 1..];
    Joined(s.cells[..s.top], BlankGrid(k, s.cols, BlankCell(s.pen)));
    Joined(s.cells[..s.top] + BlankGrid(k, s.cols, BlankCell(s.pen)), s.cells[s.top..s.bottom + 1 - k]);
    Joined(s.cells[..s.top] + BlankGrid(k, s.cols, BlankCell(s.pen)) + s.cells[s.top..s.bottom + 1 - k],
           s.cells[s.bottom + 1..]);
  }

  lemma LineFeedStored(s: Screen)
    requires s.Valid() && Stored(s)
    ensures Stored(LineFeed(s))
  {
    hide ScrollUp, AllStorable, HistoryOk;
    ScrollUpStored(s, 1);
  }

  lemma ReverseIndexStored(s: Screen)
    requires s.Valid() && Stored(s)
    ensures Stored(ReverseIndex(s))
  {
    hide ScrollDown, AllStorable, HistoryOk;
    ScrollDownStored(s, 1);
  }

  lemma WrapStored(s: Screen)
    requires s.Valid() && Stored(s)
    ensures Stored(Wrap(s))
  {
    hide LineFeed, AllStorable, HistoryOk;
    LineFeedStored(s.(flags := s.flags[s.curRow := true], curCol := 0, pendingWrap := false));
  }

  lemma GapStored(row: Row, c: nat, w: nat, b: Cell)
    requires RowStorable(row) && Storable(b) && c + w <= |row|
    ensures RowStorable(OpenGap(row, c, w, b))
  {
    hide Storable;
  }

  lemma PlaceStored(s: Screen, cp: nat, w: nat)
    requires s.Valid() && Stored(s) && 1 <= w <= 2 && s.curCol + w <= s.cols && cp < CODE_LIMIT
             && Width.CpWidth(cp) >= 1
    ensures Stored(Place(s, cp, w))
  {
    hide RowStorable, HistoryOk, AllStorable, Storable, OpenGap, Printed, Width.CpWidth;
    var row := s.cells[s.curRow];
    RowOf(s.cells, s.curRow);
    BlankStored(s.pen, 0, 0);
    PrintedStored(s.pen, cp, w == 2);
    GapStored(row, s.curCol, w, BlankCell(s.pen));
    var row1 := if s.insert then OpenGap(row, s.curCol, w, BlankCell(s.pen)) else row;
    var cell := Printed(s.pen, cp, w == 2);
    RowCell(row1, s.curCol, cell);
    if w == 2 { RowCell(row1[s.curCol := cell], s.curCol + 1, Continued(cell)); }
    CursorRowStored(s, if w == 2 then row1[s.curCol := cell][s.curCol + 1 := Continued(cell)]
                    else row1[s.curCol := cell], Place(s, cp, w));
  }

  lemma SetCellStored(s: Screen, c: Cell)
    requires s.Valid() && Stored(s) && Storable(c)
    ensures Stored(SetCell(s, c))
  {
    hide RowStorable, HistoryOk, AllStorable, Storable;
    RowOf(s.cells, s.curRow);
    RowCell(s.cells[s.curRow], s.curCol, c);
    CursorRowStored(s, s.cells[s.curRow][s.curCol := c], SetCell(s, c));
  }

  lemma PutCharStored(s: Screen, cp: nat)
    requires s.Valid() && Stored(s) && cp < CODE_LIMIT
    ensures Stored(PutChar(s, cp))
  {
    hide AllStorable, HistoryOk, Wrap, Place, SetCell, Width.CpWidth, BlankCell;
    var w := Width.CpWidth(cp);
    if w > 0 {
      if s.pendingWrap && s.autoWrap { WrapStored(s); }
      var s1 := if !s.pendingWrap then s else if s.autoWrap then Wrap(s) else s.(pendingWrap := false);
      if w == 2 && s1.curCol + 1 >= s1.cols {
        var pad := BlankCell(s1.pen).(pad := true);
        SetCellStored(s1, pad);
        var s2 := SetCell(s1, pad);
        if s2.autoWrap {
          WrapStored(s2);
          PlaceStored(Wrap(s2), cp, w);
        }
      } else {
        PlaceStored(s1, cp, w);
      }
    }
  }

  lemma ClearedStored(row: Row, from: int, to: int, b: Cell)
    requires RowStorable(row) && Storable(b) && 0 <= from && to < |row|
    ensures RowStorable(ClearRange(row, from, to, b))
  {
    hide Storable;
  }

  lemma ClearCellsStored(s: Screen, row: nat, from: nat, to: int)
    requires s.Valid() && Stored(s) && row < s.rows && to < s.cols
    ensures Stored(ClearCells(s, row, from, to))
  {
    hide RowStorable, HistoryOk, AllStorable, Storable, ClearRange;
    RowOf(s.cells, row);
    BlankStored(s.pen, 0, 0);
    ClearedStored(s.cells[row], from, to, BlankCell(s.pen));
    Replaced(s.cells, row, ClearRange(s.cells[row], from, to, BlankCell(s.pen)));
  }

  lemma ClearRowsStored(s: Screen, from: nat, to: nat)
    requires s.Valid() && Stored(s) && from <= to <= s.rows
    ensures Stored(ClearRows(s, from, to))
  {
    hide RowStorable, HistoryOk, AllStorable;
    BlankStored(s.pen, s.cols, to - from);
    Part(s.cells, 0, from);
    Part(s.cells, to, |s.cells|);
    assert s.cells[0..from] == s.cells[..from] && s.cells[to..|s.cells|] == s.cells[to..];
    Joined(s.cells[..from], BlankGrid(to - from, s.cols, BlankCell(s.pen)));
    Joined(s.cells[..from] + BlankGrid(to - from, s.cols, BlankCell(s.pen)), s.cells[to..]);
  }

  lemma FlagsStored(s: Screen, from: nat, to: nat)
    requires s.Valid() && Stored(s) && from <= to <= s.rows
    ensures Stored(ClearFlags(s, from, to))
  {
    hide AllStorable, HistoryOk;
  }

  lemma Sizes(s: Screen)
    requires s.Valid()
    ensures s.curRow < s.rows && s.curCol < s.cols
    ensures ClearCells(s, s.curRow, s.curCol, s.cols - 1).rows == s.rows && ClearRows(s, 0, s.curRow).rows == s.rows
    ensures ClearRows(ClearCells(s, s.curRow, s.curCol, s.cols - 1), s.curRow + 1, s.rows).rows == s.rows
    ensures ClearRows(s, 0, s.curRow).cols == s.cols && ClearRows(s, 0, s.rows).rows == s.rows
    ensures ClearCells(ClearRows(s, 0, s.curRow), s.curRow, 0, s.curCol).rows == s.rows
  {
    hide ClearRange, BlankGrid;
  }

  lemma EraseDisplayStored(s: Screen, mode: nat)
    requires s.Valid() && Stored(s)
    ensures Stored(EraseDisplay(s, mode))
  {
    hide Stored, ClearCells, ClearRows, Screen.Valid;
    Sizes(s);
    if mode == 0 {
      ClearCellsStored(s, s.curRow, s.curCol, s.cols - 1);
      ClearRowsStored(ClearCells(s, s.curRow, s.curCol, s.cols - 1), s.curRow + 1, s.rows);
      FlagsStored(ClearRows(ClearCells(s, s.curRow, s.curCol, s.cols - 1), s.curRow + 1, s.rows), s.curRow, s.rows);
    } else if mode == 1 {
      ClearRowsStored(s, 0, s.curRow);
      ClearCellsStored(ClearRows(s, 0, s.curRow), s.curRow, 0, s.curCol);
      FlagsStored(ClearCells(ClearRows(s, 0, s.curRow), s.curRow, 0, s.curCol), 0, s.curRow);
    } else if mode == 2 || mode == 3 {
      ClearRowsStored(s, 0, s.rows);
      FlagsStored(ClearRows(s, 0, s.rows), 0, s.rows);
    }
  }

  lemma EraseLineStored(s: Screen, mode: nat)
    requires s.Valid() && Stored(s)
    ensures Stored(EraseLine(s, mode))
  {
    hide AllStorable, HistoryOk, ClearCells;
    ClearCellsStored(s, s.curRow, s.curCol, s.cols - 1);
    ClearCellsStored(s, s.curRow, 0, s.curCol);
    ClearCellsStored(s, s.curRow, 0, s.cols - 1);
  }

  lemma EraseCharsStored(s: Screen, n: nat)
    requires s.Valid() && Stored(s)
    ensures Stored(EraseChars(s, n))
  {
    hide AllStorable, HistoryOk, ClearCells;
    ClearCellsStored(s, s.curRow, s.curCol, Min(s.curCol + n - 1, s.cols - 1));
  }

  lemma InsertCharsStored(s: Screen, n: nat)
    requires s.Valid() && Stored(s)
    ensures Stored(InsertChars(s, n))
  {
    hide AllStorable, HistoryOk, OpenGap, RowStorable, Storable;
    var k := Min(n, s.cols - s.curCol);
    RowOf(s.cells, s.curRow);
    BlankStored(s.pen, 0, 0);
    GapStored(s.cells[s.curRow], s.curCol, k, BlankCell(s.pen));
    CursorRowStored(s, OpenGap(s.cells[s.curRow], s.curCol, k, BlankCell(s.pen)), InsertChars(s, n));
  }

  lemma DeleteCharsStored(s: Screen, n: nat)
    requires s.Valid() && Stored(s)
    ensures Stored(DeleteChars(s, n))
  {
    hide AllStorable, HistoryOk, RowStorable, Storable;
    var k := Min(n, s.cols - s.curCol);
    var row := s.cells[s.curRow];
    RowOf(s.cells, s.curRow);
    BlankStored(s.pen, k, 0);
    RowPart(row, 0, s.curCol);
    RowPart(row, s.curCol + k, |row|);
    assert row[0..s.curCol] == row[..s.curCol] && row[s.curCol + k..|row|] == row[s.curCol + k..];
    RowParts(row[..s.curCol], row[s.curCol + k..]);
    RowParts(row[..s.curCol] + row[s.curCol + k..], BlankRow(k, BlankCell(s.pen)));
    CursorRowStored(s, row[..s.curCol] + row[s.curCol + k..] + BlankRow(k, BlankCell(s.pen)), DeleteChars(s, n));
  }

  lemma InsertLinesStored(s: Screen, n: nat)
    requires s.Valid() && Stored(s)
    ensures Stored(InsertLines(s, n))
  {
    hide AllStorable, HistoryOk, ScrollDown;
    if s.top <= s.curRow <= s.bottom { ScrollDownStored(s.(top := s.curRow), n); }
  }

  lemma DeleteLinesStored(s: Screen, n: nat)
    requires s.Valid() && Stored(s)
    ensures Stored(DeleteLines(s, n))
  {
    hide AllStorable, HistoryOk, ScrollUp;
    if s.top <= s.curRow <= s.bottom { ScrollUpStored(s.(top := s.curRow), n); }
  }

  lemma EnterAltStored(s: Screen)
    requires s.Valid() && Stored(s)
    ensures Stored(EnterAlt(s)) && Stored(LeaveAlt(s))
  {
    hide AllStorable, HistoryOk;
    BlankStored(s.pen, s.cols, s.rows);
  }

  lemma InitStored(rows: nat, cols: nat)
    requires 1 <= rows && 2 <= cols
    ensures Stored(Init(rows, cols, History([]))) && Stored(Init(rows, cols, NoHistory))
  {
    hide AllStorable;
    BlankStored(DEFAULT_PEN, cols, rows);
    NothingWellFormed();
  }

  /* ---- the parser ---- */

  /** Nothing of what is kept is touched. */
  ghost predicate Untouched(s: Screen, r: Screen) {
    r.cells == s.cells && r.hidden == s.hidden && r.history == s.history && r.cols == s.cols
  }

  lemma UntouchedStored(s: Screen, r: Screen)
    requires Stored(s) && Untouched(s, r)
    ensures Stored(r)
  {
  }

  lemma {:induction false} TabsUntouched(s: Screen, tabs: set<nat>, n: nat)
    requires s.Valid()
    ensures Untouched(s, Tabs(s, tabs, n))
    decreases n
  {
    hide NextTab;
    if n > 0 { TabsUntouched(Tab(s, tabs), tabs, n - 1); }
  }

  lemma CursorSetUntouched(s: Screen)
    requires s.Valid()
    ensures forall row: int, col: int :: Untouched(s, CursorSet(s, row, col))
  {
  }

  lemma SavingUntouched(s: Screen, ps: seq<nat>)
    requires s.Valid()
    ensures Untouched(s, SaveCursor(s)) && Untouched(s, RestoreCursor(s)) && Untouched(s, Sgr(s, ps))
  {
    hide SgrList;
  }

  lemma RegionUntouched(s: Screen, first: nat, last: nat)
    requires s.Valid()
    ensures Untouched(s, SetRegion(s, first, last))
  {
    hide CursorSet;
    var top: int := if first == 0 then 0 else first - 1;
    var bottom := Min(last - 1, s.rows - 1);
    var s1 := if top < bottom then s.(top := top, bottom := bottom) else s;
    CursorSetUntouched(s1);
  }

  lemma MoveUntouched(s: Screen, tabs: set<nat>, final: char, ps: seq<nat>)
    requires s.Valid()
    ensures Untouched(s, CsiMove(s, tabs, final, ps))
  {
    hide Tabs, BackCols, CursorSet, SaveCursor, RestoreCursor, P, Screen.Valid;
    CursorSetUntouched(s);
    SavingUntouched(s, ps);
    TabsUntouched(s, tabs, P(ps, 0, 1));
  }

  lemma EditStored(s: Screen, final: char, ps: seq<nat>)
    requires s.Valid() && Stored(s)
    ensures Stored(CsiEdit(s, final, ps))
  {
    hide Stored, EraseDisplay, EraseLine, EraseChars, InsertChars, DeleteChars, InsertLines, DeleteLines, ScrollUp,
         ScrollDown, Sgr, SetRegion, P, Screen.Valid;
    var n := P(ps, 0, 1);
    match final {
      case 'J' => EraseDisplayStored(s, P(ps, 0, 0));
      case 'K' => EraseLineStored(s, P(ps, 0, 0));
      case 'X' => EraseCharsStored(s, n);
      case '@' => InsertCharsStored(s, n);
      case 'P' => DeleteCharsStored(s, n);
      case 'L' => InsertLinesStored(s, n);
      case 'M' => DeleteLinesStored(s, n);
      case 'S' => ScrollUpStored(s, n);
      case 'T' => ScrollDownStored(s, n);
      case 'm' => SavingUntouched(s, ps); UntouchedStored(s, Sgr(s, ps));
      case 'h' => UntouchedStored(s, s.(insert := true));
      case 'l' => UntouchedStored(s, s.(insert := false));
      case 'r' => RegionUntouched(s, n, P(ps, 1, s.rows)); UntouchedStored(s, SetRegion(s, n, P(ps, 1, s.rows)));
      case _ =>
    }
  }

  lemma ModeStored(s: Screen, mode: nat, on: bool)
    requires s.Valid() && Stored(s)
    ensures Stored(PrivateMode(s, mode, on))
  {
    hide Stored, EnterAlt, LeaveAlt, CursorSet;
    EnterAltStored(s);
    if mode == 6 {
      var s1 := s.(origin := on);
      UntouchedStored(s, s1);
      CursorSetUntouched(s1);
      UntouchedStored(s1, CursorSet(s1, if on then s1.top else 0, 0));
    } else if mode == 7 {
      UntouchedStored(s, s.(autoWrap := on));
    } else if mode == 25 {
      UntouchedStored(s, s.(visible := on));
    }
  }

  lemma {:induction false} ModesStored(s: Screen, ps: seq<nat>, on: bool)
    requires s.Valid() && Stored(s)
    ensures Stored(PrivateModes(s, ps, on))
    decreases |ps|
  {
    hide Stored, PrivateMode;
    if |ps| > 0 {
      ModesStored(s, ps[..|ps| - 1], on);
      ModeStored(PrivateModes(s, ps[..|ps| - 1], on), ps[|ps| - 1], on);
    }
  }

  lemma {:induction false} PutTimesStored(s: Screen, cp: nat, n: nat)
    requires s.Valid() && Stored(s) && cp < CODE_LIMIT
    ensures Stored(PutTimes(s, cp, n))
    decreases n
  {
    hide Stored, PutChar;
    if n > 0 {
      PutCharStored(s, cp);
      PutTimesStored(PutChar(s, cp), cp, n - 1);
    }
  }

  ghost predicate Keeps(p: Parser) {
    Stored(p.scr) && p.lastGraphic < CODE_LIMIT
  }

  lemma DispatchCsiKeeps(p: Parser, final: char)
    requires p.Valid() && Keeps(p)
    ensures Keeps(DispatchCsi(p, final))
  {
    hide Stored, CsiMove, CsiEdit, PrivateModes, PutTimes;
    var ps := p.params;
    ModesStored(p.scr, ps, final == 'h');
    MoveUntouched(p.scr, p.tabs, final, ps);
    UntouchedStored(p.scr, CsiMove(p.scr, p.tabs, final, ps));
    PutTimesStored(p.scr, p.lastGraphic, P(ps, 0, 1));
    EditStored(p.scr, final, ps);
  }

  lemma LineFeedLeft(s: Screen)
    requires s.Valid() && Stored(s)
    ensures s.(curCol := 0).Valid() && Stored(LineFeed(s.(curCol := 0)))
  {
    hide Stored, LineFeed;
    UntouchedStored(s, s.(curCol := 0));
    LineFeedStored(s.(curCol := 0));
  }

  lemma ResetStored(s: Screen)
    requires s.Valid()
    ensures Stored(Init(s.rows, s.cols, History([])))
  {
    InitStored(s.rows, s.cols);
  }

  lemma DispatchEscKeeps(p: Parser, final: char)
    requires p.Valid() && Keeps(p)
    ensures Keeps(DispatchEsc(p, final))
  {
    hide Stored, LineFeed, ReverseIndex, Init, SaveCursor, RestoreCursor, DefaultTabs, Screen.Valid;
    var s := p.scr;
    SavingUntouched(s, []);
    UntouchedStored(s, SaveCursor(s));
    UntouchedStored(s, RestoreCursor(s));
    LineFeedStored(s);
    if final == 'E' { LineFeedLeft(s); }
    ReverseIndexStored(s);
    if final == 'c' { ResetStored(s); }
  }

  lemma PutCodeKeeps(p: Parser, cp: nat)
    requires p.Valid() && Keeps(p) && cp < CODE_LIMIT
    ensures Keeps(PutCode(p, cp))
  {
    hide Stored, PutChar, Width.CpWidth;
    var ch := if p.g0Dec && 0x60 <= cp <= 0x7e then DEC_GRAPHICS[cp - 0x60] else cp;
    DecSmall(cp);
    PutCharStored(p.scr, ch);
  }

  lemma DecSmall(cp: nat)
    ensures 0x60 <= cp <= 0x7e ==> DEC_GRAPHICS[cp - 0x60] < CODE_LIMIT
  {
    assert forall i :: 0 <= i < |DEC_GRAPHICS| ==> DEC_GRAPHICS[i] < 0x10000;
  }

  lemma DecodeSmall(b: seq<Byte>)
    requires 2 <= |b| <= 4
    ensures VtParser.Decode(b) < CODE_LIMIT
  {
  }

  lemma FeedUtf8Keeps(p: Parser, c: Byte)
    requires p.Valid() && Keeps(p)
    ensures Keeps(FeedUtf8(p, c))
  {
    hide Stored, PutCode, VtParser.Decode;
    if p.utf8Want == 0 {
      if c < 0x80 { PutCodeKeeps(p, c); }
    } else if 0x80 <= c < 0xC0 {
      var b := p.utf8 + [c];
      if |b| == p.utf8Want {
        DecodeSmall(b);
        PutCodeKeeps(p.(utf8 := [], utf8Want := 0), VtParser.Decode(b));
      }
    }
  }

  lemma ControlsUntouched(s: Screen, tabs: set<nat>)
    requires s.Valid()
    ensures Untouched(s, Backspace(s)) && Untouched(s, CarriageReturn(s)) && Untouched(s, Tab(s, tabs))
  {
    hide NextTab;
  }

  lemma HandleC0Keeps(p: Parser, c: Byte)
    requires p.Valid() && Keeps(p)
    ensures Keeps(HandleC0(p, c))
  {
    hide Stored, LineFeed, Backspace, CarriageReturn, Tab, Screen.Valid;
    var s := p.scr;
    LineFeedStored(s);
    ControlsUntouched(s, p.tabs);
    UntouchedStored(s, Backspace(s));
    UntouchedStored(s, CarriageReturn(s));
    UntouchedStored(s, Tab(s, p.tabs));
  }

  lemma FeedSequenceKeeps(p: Parser, c: Byte)
    requires p.Valid() && Keeps(p)
    ensures Keeps(FeedEsc(p, c)) && Keeps(FeedCsiParam(p, c)) && Keeps(FeedCsiInter(p, c))
  {
    hide Stored, DispatchCsi, DispatchEsc, Parser.Valid, VtParser.CsiDigit, VtParser.CsiSep;
    if c < 0x80 {
      DispatchCsiKeeps(p, c as char);
      DispatchEscKeeps(p, c as char);
    }
  }

  lemma FeedKeeps(p: Parser, c: Byte)
    requires p.Valid() && Keeps(p)
    ensures Keeps(Feed(p, c))
  {
    hide Stored, DispatchCsi, DispatchEsc, HandleC0, FeedUtf8, FeedEsc, FeedCsiParam, FeedCsiInter, Parser.Valid;
    HandleC0Keeps(p, c);
    FeedUtf8Keeps(p, c);
    FeedSequenceKeeps(p, c);
  }

  lemma {:induction false} FeedAllKeeps(p: Parser, bytes: seq<Byte>)
    requires p.Valid() && Keeps(p)
    ensures Keeps(FeedAll(p, bytes))
    decreases |bytes|
  {
    hide Keeps, Feed;
    if |bytes| > 0 {
      FeedAllKeeps(p, bytes[..|bytes| - 1]);
      FeedKeeps(FeedAll(p, bytes[..|bytes| - 1]), bytes[|bytes| - 1]);
    }
  }

  /* ---- changes of size ---- */

  lemma {:induction false} UnpaddedStored(row: Row)
    requires RowStorable(row)
    ensures RowStorable(Unpadded(row))
    decreases |row|
  {
    hide Storable;
    if |row| > 0 {
      RowPart(row, 0, |row| - 1);
      assert row[0..|row| - 1] == row[..|row| - 1];
      UnpaddedStored(row[..|row| - 1]);
    }
  }

  lemma {:induction false} GatherStored(rows: seq<Row>)
    requires AllStorable(rows)
    ensures RowStorable(Gather(rows))
    decreases |rows|
  {
    hide RowStorable, Unpadded;
    if |rows| == 0 {
      BlankStored(DEFAULT_PEN, 0, 0);
    } else {
      RowOf(rows, 0);
      UnpaddedStored(rows[0]);
      Part(rows, 1, |rows|);
      assert rows[1..|rows|] == rows[1..];
      GatherStored(rows[1..]);
      RowParts(Unpadded(rows[0]), Gather(rows[1..]));
    }
  }

  lemma MarginsStored(cur: seq<Cell>, nc: nat)
    requires RowStorable(cur) && |cur| <= nc
    ensures RowStorable(Margin(cur, nc)) && RowStorable(LastRow(cur, nc))
  {
    assert Keepable(SPACE);
    hide Keepable;
  }

  lemma {:induction false} LayStored(ln: seq<Cell>, nc: nat, cur: seq<Cell>)
    requires nc >= 2 && |cur| <= nc && Chunked(ln) && RowStorable(ln) && RowStorable(cur)
    ensures AllStorable(LayFrom(ln, nc, cur))
    decreases |ln|, |cur|
  {
    hide RowStorable, LayFrom, Margin, LastRow;
    MarginsStored(cur, nc);
    if |ln| == 0 {
      LayDone(ln, nc, cur);
    } else if |cur| + CellCols(ln[0]) > nc {
      LayWrap(ln, nc, cur);
      BlankStored(DEFAULT_PEN, 0, 0);
      LayStored(ln, nc, []);
      Joined([Margin(cur, nc)], LayFrom(ln, nc, []));
    } else {
      var w := CellCols(ln[0]);
      LayPut(ln, nc, cur);
      RowPart(ln, 0, w);
      RowPart(ln, w, |ln|);
      assert ln[0..w] == ln[..w] && ln[w..|ln|] == ln[w..];
      RowParts(cur, ln[..w]);
      LayStored(ln[w..], nc, cur + ln[..w]);
    }
  }

  lemma {:induction false} LaidStored(lines: seq<seq<Cell>>, nc: nat)
    requires nc >= 2 && LinesOk(lines) && AllStorable(lines)
    ensures AllStorable(Laid(lines, nc).rows)
    decreases |lines|
  {
    hide RowStorable, Lay, Chunked, AllStorable;
    if |lines| == 0 {
      LaidNone(lines, nc);
      NoneStored();
    } else {
      var n := |lines| - 1;
      Part(lines, 0, n);
      assert lines[0..n] == lines[..n];
      LaidStored(lines[..n], nc);
      LineStored(lines, n, nc);
      Joined(Laid(lines[..n], nc).rows, Lay(lines[n], nc));
    }
  }

  lemma NoneStored()
    ensures AllStorable([])
  {
  }

  lemma LineStored(lines: seq<seq<Cell>>, n: nat, nc: nat)
    requires nc >= 2 && LinesOk(lines) && AllStorable(lines) && n < |lines|
    ensures AllStorable(Lay(lines[n], nc))
  {
    BlankStored(DEFAULT_PEN, 0, 0);
    LayStored(lines[n], nc, []);
  }

  lemma {:induction false} AddBytesSmall(cp: nat, b: seq<Byte>, n: nat, limit: nat)
    requires n <= |b| && cp < limit
    ensures AddBytes(cp, b, n) < limit * Power64(n)
    decreases n
  {
    if n > 0 {
      AddBytesSmall(cp, b, n - 1, limit);
      assert AddBytes(cp, b, n - 1) + 1 <= limit * Power64(n - 1);
      assert limit * Power64(n) == 64 * (limit * Power64(n - 1));
    }
  }

  function Power64(n: nat): nat {
    if n == 0 then 1 else 64 * Power64(n - 1)
  }

  lemma FirstCodeSmall(b: seq<Byte>)
    requires |b| > 0
    ensures FirstCode(b) < CODE_LIMIT
  {
    var n := CharLength(b) - 1;
    var limit := if b[0] < 0x80 then 128 else if b[0] < 0xE0 then 32 else if b[0] < 0xF0 then 16 else 8;
    AddBytesSmall(LeadBits(b[0]), b[1..], n, limit);
    assert Power64(0) == 1 && Power64(1) == 64 && Power64(2) == 4096 && Power64(3) == 262144;
  }

  lemma CharStored(cp: nat)
    requires cp < CODE_LIMIT
    ensures RowStorable(CharCells(cp))
  {
    assert Keepable(SPACE);
  }

  lemma {:induction false} DecodedStored(b: seq<Byte>)
    ensures RowStorable(DecodeText(b))
    decreases |b|
  {
    hide RowStorable, FirstCode, CharLength, CharCells;
    if |b| == 0 {
      BlankStored(DEFAULT_PEN, 0, 0);
    } else {
      FirstCodeSmall(b);
      CharStored(FirstCode(b));
      DecodedStored(b[CharLength(b)..]);
      RowParts(CharCells(FirstCode(b)), DecodeText(b[CharLength(b)..]));
    }
  }

  lemma {:induction false} HistoryLinesStored(text: seq<Byte>, p: nat, e: nat)
    requires p <= e <= |text|
    ensures AllStorable(HistoryLines(text, p, e))
    decreases e - p
  {
    hide RowStorable, DecodeText, Chunked, Paired, NoPads;
    if p < e {
      var k := FindNewline(text[..e], p);
      DecodedStored(text[p..k]);
      HistoryLinesStored(text, if k < e then k + 1 else e, e);
      Joined([DecodedLine(text[p..k])], HistoryLines(text, if k < e then k + 1 else e, e));
    }
  }

  lemma SpanStored(buf: seq<Cell>, sp: Span)
    requires RowStorable(buf) && sp.start + sp.len < |buf|
    ensures RowStorable(SpanLine(buf, sp))
  {
    hide RowStorable, Chunked, Extent;
    var b := buf[sp.start..];
    RowPart(buf, sp.start, |buf|);
    assert buf[sp.start..|buf|] == b;
    RowPart(b, 0, Extent(b, sp.len));
    assert b[0..Extent(b, sp.len)] == b[..Extent(b, sp.len)];
  }

  lemma SpansStored(buf: seq<Cell>, spans: seq<Span>)
    requires RowStorable(buf) && SpansFit(buf, spans)
    ensures AllStorable(SpanLines(buf, spans))
  {
    hide RowStorable, SpanLine;
    forall i | 0 <= i < |spans| ensures RowStorable(SpanLines(buf, spans)[i]) { SpanStored(buf, spans[i]); }
  }

  lemma BufferStored(s: Screen, junk: Cell)
    requires s.Valid() && Stored(s) && Storable(junk)
    ensures RowStorable(LineBuffer(s, junk))
  {
    hide AllStorable, RowStorable, HistoryOk, Gather, FirstRow, LastRowOf, Storable;
    var f, l := FirstRow(s.flags, s.curRow), LastRowOf(s.flags, s.curRow);
    Part(s.cells, 0, f);
    Part(s.cells, l + 1, |s.cells|);
    assert s.cells[0..f] == s.cells[..f] && s.cells[l + 1..|s.cells|] == s.cells[l + 1..];
    GatherStored(s.cells[..f]);
    GatherStored(s.cells[l + 1..]);
    OneStored(junk);
    RowParts(Gather(s.cells[..f]), Gather(s.cells[l + 1..]));
    RowParts(Gather(s.cells[..f]) + Gather(s.cells[l + 1..]), [junk]);
  }

  lemma OneStored(c: Cell)
    requires Storable(c)
    ensures RowStorable([c])
  {
  }

  lemma FitStored(row: Row, nc: nat, b: Cell)
    requires RowStorable(row) && nc >= 1 && Storable(b)
    ensures RowStorable(FitRow(row, nc, b))
  {
    assert Keepable(SPACE);
    hide Keepable;
  }

  lemma CursorPageStored(s: Screen, nc: nat)
    requires s.Valid() && Stored(s) && nc >= 2
    ensures AllStorable(CursorPage(s, nc).rows)
  {
    hide RowStorable, HistoryOk, FitRow, FirstRow, LastRowOf, Storable;
    var f, l := FirstRow(s.flags, s.curRow), LastRowOf(s.flags, s.curRow);
    BlankStored(s.pen, 0, 0);
    Part(s.cells, f, l + 1);
    var rows := s.cells[f..l + 1];
    forall i | 0 <= i < |rows| ensures RowStorable(CursorPage(s, nc).rows[i]) {
      FitStored(rows[i], nc, BlankCell(s.pen));
    }
  }

  lemma WholePageStored(s: Screen, nr: nat, nc: nat, junk: Cell)
    requires s.Valid() && s.history.History? && Stored(s) && nr >= 1 && nc >= 2 && Storable(junk)
    ensures AllStorable(WholePage(s, nr, nc, junk).rows)
  {
    hide AllStorable, RowStorable, HistoryOk, Laid, CursorPage, HistoryLines, Spans, DropEmpty, SpanLine, LineBuffer,
         PullPoint, Storable, SpansBelow, Cut;
    var text := s.history.text;
    BufferStored(s, junk);
    AboveFits(s, junk);
    BelowFits(s, junk);
    SpansStored(LineBuffer(s, junk), Spans(s.cells, s.flags, 0, FirstRow(s.flags, s.curRow), 0));
    SpansStored(LineBuffer(s, junk), DropEmpty(SpansBelow(s)));
    HistoryLinesStored(text, PullPoint(s, nr, nc, junk), Cut(text, |text|));
    LaidStored(HistoryLines(text, PullPoint(s, nr, nc, junk), Cut(text, |text|)), nc);
    LaidStored(LinesAbove(s, junk), nc);
    LaidStored(LinesBelow(s, junk), nc);
    CursorPageStored(s, nc);
    var h, a, c, b := PulledPage(s, nr, nc, junk).rows, Laid(LinesAbove(s, junk), nc).rows, CursorPage(s, nc).rows,
        Laid(LinesBelow(s, junk), nc).rows;
    Joined(a, c);
    Joined(a + c, b);
    Joined(h, a + c + b);
  }

  lemma GridResizedStored(g: seq<Row>, nr: nat, nc: nat)
    requires AllStorable(g)
    ensures AllStorable(ResizedGrid(g, nr, nc))
  {
    hide Storable;
    BlankStored(DEFAULT_PEN, nc, 0);
    var r := ResizedGrid(g, nr, nc);
    forall i | 0 <= i < nr ensures RowStorable(r[i]) {
      if i < |g| { assert RowStorable(g[i]); }
    }
  }

  lemma HiddenStored(h: Hidden, nr: nat, nc: nat)
    requires h.Grid? ==> AllStorable(h.cells)
    ensures var r := ResizedHidden(h, nr, nc); r.Grid? ==> AllStorable(r.cells)
  {
    if h.Grid? { GridResizedStored(h.cells, nr, nc); }
  }

  lemma HistoryLeftOk(s: Screen, nr: nat, nc: nat, junk: Cell)
    requires s.Valid() && s.history.History? && HistoryOk(s.history) && nc >= 2
    ensures HistoryOk(History(HistoryLeft(s, nr, nc, junk)))
  {
    hide WellFormed, PullPoint, Cut;
    var text, pull := s.history.text, PullPoint(s, nr, nc, junk);
    if pull == 0 {
      NothingWellFormed();
      assert text[..0] == [];
    } else if pull < |text| {
      WellFormedCut(text, pull - 1);
      NewlineWellFormed(text[..pull - 1]);
      assert text[..pull - 1] + [NEWLINE] == text[..pull];
    } else {
      assert text[..pull] == text;
    }
  }

  lemma NewlineWellFormed(a: seq<Byte>)
    requires WellFormed(a)
    ensures WellFormed(a + [NEWLINE])
  {
    hide WellFormed;
    assert Width.CpWidth(0x0A) == 1;
    assert [NEWLINE] == Encode(0x0A);
    WellFormedOne(0x0A);
    WellFormedAppend(a, [NEWLINE]);
  }

  lemma SettleStored(s: Screen, page: Page, at: nat, text: seq<Byte>, nr: nat, nc: nat)
    requires s.Valid() && Stored(s) && nr >= 1 && nc >= 2 && page.Valid(nc) && at < |page.rows|
    requires AllStorable(page.rows) && HistoryOk(History(text))
    ensures Stored(Settle(s, page, at, text, nr, nc))
  {
    hide AllStorable, HistoryOk, CaptureRows, ResizedHidden, BlankGrid, NoFlags;
    var over := Over(|page.rows|, nr, at);
    var keep := Min(|page.rows| - over, nr);
    Part(page.rows, over, over + keep);
    Part(page.rows, 0, over);
    assert page.rows[0..over] == page.rows[..over];
    BlankStored(DEFAULT_PEN, nc, nr - keep);
    Joined(page.rows[over..over + keep], BlankGrid(nr - keep, nc, BLANK));
    CapturedStored(History(text), page.rows[..over], page.flags[..over]);
    HiddenStored(s.hidden, nr, nc);
  }

  lemma ResizedStored(s: Screen, nr: nat, nc: nat, junk: Cell)
    requires s.Valid() && Stored(s) && nr >= 1 && nc >= 2 && Storable(junk)
    ensures Stored(Resized(s, nr, nc, junk))
  {
    hide AllStorable, HistoryOk, ResizedHidden, ResizedGrid, ResizedFlags, Settle, WholePage, CursorAt, HistoryLeft,
         Storable;
    if Reflows(s) {
      WholePageStored(s, nr, nc, junk);
      HistoryLeftOk(s, nr, nc, junk);
      SettleStored(s, WholePage(s, nr, nc, junk), CursorAt(s, nr, nc, junk), HistoryLeft(s, nr, nc, junk), nr, nc);
    } else {
      GridResizedStored(s.cells, nr, nc);
      HiddenStored(s.hidden, nr, nc);
    }
  }

  /* ---- runs ---- */

  /** The memory reflow never wrote, where it reads it, holds what a cell can hold. */
  ghost predicate JunkStorable(events: seq<Event>) {
    forall i :: 0 <= i < |events| && events[i].Resize? ==> Storable(events[i].junk)
  }

  lemma {:induction false} LiveKeeps(p: Parser, events: seq<Event>)
    requires p.Valid() && EventsOk(events) && Keeps(p) && JunkStorable(events)
    ensures Keeps(Live(p, events))
    decreases |events|
  {
    hide Stored, Storable, FeedAll, Resized;
    if |events| > 0 {
      var n := |events| - 1;
      LiveKeeps(p, events[..n]);
      var q := Live(p, events[..n]);
      match events[n] {
        case Output(bytes) => FeedAllKeeps(q, bytes);
        case Resize(rows, cols, junk) => ResizedStored(q.scr, rows, cols, junk);
      }
    }
  }

  /** For every interleaving of byte streams and changes of size, the history is at most 32 KiB of well-formed text. */
  lemma HistoryAlwaysWellFormed(rows: nat, cols: nat, p: Parser, events: seq<Event>)
    requires 1 <= rows && 2 <= cols && p.Valid() && p.scr == Init(rows, cols, History([])) && p.lastGraphic == 0
    requires EventsOk(events) && JunkStorable(events)
    ensures var h := Live(p, events).scr.history; HistoryOk(h) && (h.History? ==> |h.text| <= 32768)
  {
    hide Live, Init;
    InitStored(rows, cols);
    LiveKeeps(p, events);
  }
}

/** What the bytes of each edit do to the screen, row by row and cell by cell (dispatch_csi and dispatch_esc of
    _lib/vt.c), fed to a terminal in any state. */
module EditLaws {
  import opened Cells
  import opened Utf8
  import opened Scrollback
  import opened Vt
  import opened VtParser
  import opened Sequences
  import Wire

  /** A space in the colours of the pen, as an erase leaves it. */
  predicate Erased(c: Cell, pen: Pen) {
    && c.ch == 0x20 && c.attrs == {} && !c.wide && !c.cont && !c.pad
    && c.bgDfl == (pen.bg == 256) && c.bg == (if pen.bg == 256 then 0 else pen.bg % 256)
    && c.fgDfl == (pen.fg == 256) && c.fg == (if pen.fg == 256 then 0 else pen.fg % 256)
  }

  lemma BlankIsErased(pen: Pen)
    ensures Erased(BlankCell(pen), pen)
  {
  }

  /** Row r of t is row r0 of s, with its wrap flag. */
  ghost predicate RowIs(t: Screen, r: nat, s: Screen, r0: nat) {
    && r < |t.cells| && r < |t.flags| && r0 < |s.cells| && r0 < |s.flags|
    && t.cells[r] == s.cells[r0] && t.flags[r] == s.flags[r0]
  }

  /** Row r has been erased from end to end and continues on no other. */
  ghost predicate RowErased(t: Screen, r: nat, pen: Pen) {
    && r < |t.cells| && r < |t.flags| && |t.cells[r]| == t.cols && !t.flags[r]
    && forall c :: 0 <= c < t.cols ==> Erased(t.cells[r][c], pen)
  }

  /** Row r when n rows are opened at row `at`: those from there on move down, and past row `last` they are lost. */
  ghost predicate OpenedAt(s: Screen, t: Screen, at: nat, n: nat, last: nat, r: nat) {
    if at <= r <= last then (if r < at + n then RowErased(t, r, s.pen) else RowIs(t, r, s, r - n))
    else RowIs(t, r, s, r)
  }

  ghost predicate RowsOpened(s: Screen, t: Screen, at: nat, n: nat, last: nat) {
    forall r :: 0 <= r < s.rows ==> OpenedAt(s, t, at, n, last, r)
  }

  /** Row r when n rows are closed up at row `at`: those below move up, and erased ones come in at row `last`. */
  ghost predicate ClosedAt(s: Screen, t: Screen, at: nat, n: nat, last: nat, r: nat) {
    if at <= r <= last then (if r + n <= last then RowIs(t, r, s, r + n) else RowErased(t, r, s.pen))
    else RowIs(t, r, s, r)
  }

  ghost predicate RowsClosed(s: Screen, t: Screen, at: nat, n: nat, last: nat) {
    forall r :: 0 <= r < s.rows ==> ClosedAt(s, t, at, n, last, r)
  }

  /** The rows that a scroll takes off the top of the main screen go into the history. */
  ghost function WithRows(s: Screen, at: nat, n: nat, last: nat): History
    requires s.Valid() && at <= last < s.rows
  {
    var k := if n <= last - at + 1 then n else last - at + 1;
    if at == 0 && !s.inAlt then CaptureRows(s.history, s.cells[..k], s.flags[..k]) else s.history
  }

  /* ---- which operation a sequence is ---- */

  lemma EditFed(p: Parser, d: seq<Byte>, final: char)
    requires p.Valid() && Argument(d) && 0x40 <= final as int <= 0x7E
    requires !IsMove(final) && final !in {'b', 'g', 'n'}
    ensures FeedAll(p, Command(d, final)).scr == CsiEdit(p.scr, final, Read(d))
    ensures P(Read(d), 0, 1) == Amount(d) && P(Read(d), 0, 0) == Number(d)
  {
    hide FeedAll, CsiEdit, CsiMove;
    FeedCommand(p, d, final);
  }

  lemma Dispatched(s: Screen, ps: seq<nat>)
    requires s.Valid()
    ensures CsiEdit(s, 'L', ps) == InsertLines(s, P(ps, 0, 1))
    ensures CsiEdit(s, 'M', ps) == DeleteLines(s, P(ps, 0, 1))
    ensures CsiEdit(s, 'S', ps) == ScrollUp(s, P(ps, 0, 1))
    ensures CsiEdit(s, 'T', ps) == ScrollDown(s, P(ps, 0, 1))
    ensures CsiEdit(s, '@', ps) == InsertChars(s, P(ps, 0, 1))
    ensures CsiEdit(s, 'P', ps) == DeleteChars(s, P(ps, 0, 1))
    ensures CsiEdit(s, 'X', ps) == EraseChars(s, P(ps, 0, 1))
    ensures CsiEdit(s, 'J', ps) == EraseDisplay(s, P(ps, 0, 0))
    ensures CsiEdit(s, 'K', ps) == EraseLine(s, P(ps, 0, 0))
  {
    hide InsertLines, DeleteLines, ScrollUp, ScrollDown, InsertChars, DeleteChars, EraseChars, EraseDisplay, EraseLine,
         Sgr, SetRegion, Screen.Valid;
  }

  /* ---- rows ---- */

  lemma ErasedRow(t: Screen, r: nat, pen: Pen)
    requires r < |t.cells| && r < |t.flags| && t.cells[r] == BlankRow(t.cols, BlankCell(pen)) && !t.flags[r]
    ensures RowErased(t, r, pen)
  {
    BlankIsErased(pen);
  }

  lemma ScrolledDown(s: Screen, n: nat)
    requires s.Valid()
    ensures RowsOpened(s, ScrollDown(s, n), s.top, n, s.bottom)
  {
    hide BlankCell, RowErased;
    var t, k := ScrollDown(s, n), Min(n, s.bottom - s.top + 1);
    forall r | 0 <= r < s.rows ensures OpenedAt(s, t, s.top, n, s.bottom, r) {
      if s.top <= r < s.top + k { ErasedRow(t, r, s.pen); }
    }
  }

  lemma ScrolledUp(s: Screen, n: nat)
    requires s.Valid()
    ensures RowsClosed(s, ScrollUp(s, n), s.top, n, s.bottom)
    ensures ScrollUp(s, n).history == WithRows(s, s.top, n, s.bottom)
  {
    hide BlankCell, RowErased, CaptureRows;
    var t, k := ScrollUp(s, n), Min(n, s.bottom - s.top + 1);
    forall r | 0 <= r < s.rows ensures ClosedAt(s, t, s.top, n, s.bottom, r) {
      if s.bottom - k < r <= s.bottom { ErasedRow(t, r, s.pen); }
    }
  }

  /** n lines are inserted at the cursor's row if it is in the region: the rows above it and those below the region
      stay. The cursor goes to the start of its row. */
  ghost predicate LinesInserted(s: Screen, t: Screen, n: nat) {
    && t == s.(cells := t.cells, flags := t.flags, curCol := 0, pendingWrap := false)
    && (if s.top <= s.curRow <= s.bottom then RowsOpened(s, t, s.curRow, n, s.bottom)
        else t.cells == s.cells && t.flags == s.flags)
  }

  lemma InsertedLines(s: Screen, n: nat)
    requires s.Valid()
    ensures LinesInserted(s, InsertLines(s, n), n)
  {
    hide ScrollDown, RowsOpened;
    if s.top <= s.curRow <= s.bottom {
      var s1 := s.(top := s.curRow);
      ScrolledDown(s1, n);
      SameRowsOpened(s1, ScrollDown(s1, n), s, InsertLines(s, n), s.curRow, n, s.bottom);
    }
  }

  /** IL. */
  lemma InsertsLines(p: Parser, d: seq<Byte>)
    requires p.Valid() && Argument(d)
    ensures LinesInserted(p.scr, FeedAll(p, Command(d, 'L')).scr, Amount(d))
  {
    hide FeedAll, InsertLines, CsiEdit, LinesInserted, Number, Amount;
    EditFed(p, d, 'L');
    Dispatched(p.scr, Read(d));
    InsertedLines(p.scr, Amount(d));
  }

  /** What is said of rows depends on nothing else of the screens. */
  lemma SameRowsOpened(s: Screen, t: Screen, s1: Screen, t1: Screen, at: nat, n: nat, last: nat)
    requires RowsOpened(s, t, at, n, last)
    requires s1.cells == s.cells && s1.flags == s.flags && s1.rows == s.rows && s1.pen == s.pen
    requires t1.cells == t.cells && t1.flags == t.flags && t1.cols == t.cols
    ensures RowsOpened(s1, t1, at, n, last)
  {
    forall r | 0 <= r < s.rows ensures OpenedAt(s1, t1, at, n, last, r) {
      assert OpenedAt(s, t, at, n, last, r);
    }
  }

  lemma SameRowsClosed(s: Screen, t: Screen, s1: Screen, t1: Screen, at: nat, n: nat, last: nat)
    requires RowsClosed(s, t, at, n, last)
    requires s1.cells == s.cells && s1.flags == s.flags && s1.rows == s.rows && s1.pen == s.pen
    requires t1.cells == t.cells && t1.flags == t.flags && t1.cols == t.cols
    ensures RowsClosed(s1, t1, at, n, last)
  {
    forall r | 0 <= r < s.rows ensures ClosedAt(s1, t1, at, n, last, r) {
      assert ClosedAt(s, t, at, n, last, r);
    }
  }

  /** n lines are deleted from the cursor's row on if it is in the region; those that go are captured if it is the top
      row of the main screen. */
  ghost predicate LinesDeleted(s: Screen, t: Screen, n: nat)
    requires s.Valid()
  {
    && t == s.(cells := t.cells, flags := t.flags, history := t.history, curCol := 0, pendingWrap := false)
    && (if s.top <= s.curRow <= s.bottom then
          RowsClosed(s, t, s.curRow, n, s.bottom) && t.history == WithRows(s, s.curRow, n, s.bottom)
        else t.cells == s.cells && t.flags == s.flags && t.history == s.history)
  }

  lemma DeletedLines(s: Screen, n: nat)
    requires s.Valid()
    ensures LinesDeleted(s, DeleteLines(s, n), n)
  {
    hide ScrollUp, RowsClosed, CaptureRows;
    if s.top <= s.curRow <= s.bottom {
      var s1 := s.(top := s.curRow);
      ScrolledUp(s1, n);
      SameRowsClosed(s1, ScrollUp(s1, n), s, DeleteLines(s, n), s.curRow, n, s.bottom);
    }
  }

  /** DL. */
  lemma DeletesLines(p: Parser, d: seq<Byte>)
    requires p.Valid() && Argument(d)
    ensures LinesDeleted(p.scr, FeedAll(p, Command(d, 'M')).scr, Amount(d))
  {
    hide FeedAll, DeleteLines, CsiEdit, LinesDeleted, Number, Amount;
    EditFed(p, d, 'M');
    Dispatched(p.scr, Read(d));
    DeletedLines(p.scr, Amount(d));
  }

  /** SU and SD. */
  lemma Scrolls(p: Parser, d: seq<Byte>)
    requires p.Valid() && Argument(d)
    ensures var s, t := p.scr, FeedAll(p, Command(d, 'S')).scr;
      && t == s.(cells := t.cells, flags := t.flags, history := t.history)
      && RowsClosed(s, t, s.top, Amount(d), s.bottom) && t.history == WithRows(s, s.top, Amount(d), s.bottom)
    ensures var s, t := p.scr, FeedAll(p, Command(d, 'T')).scr;
      && t == s.(cells := t.cells, flags := t.flags)
      && RowsOpened(s, t, s.top, Amount(d), s.bottom)
  {
    hide FeedAll, ScrollUp, ScrollDown, CsiEdit, RowsClosed, RowsOpened, WithRows, Number;
    EditFed(p, d, 'S');
    EditFed(p, d, 'T');
    Dispatched(p.scr, Read(d));
    ScrolledUp(p.scr, Amount(d));
    ScrolledDown(p.scr, Amount(d));
  }

  /* ---- line feeds ---- */

  /** A line feed keeps the column: in the last row of the region its rows move up, and elsewhere the cursor goes down
      if there is a row. */
  ghost predicate LineFed(s: Screen, t: Screen)
    requires s.Valid()
  {
    if s.curRow == s.bottom then
      && t == s.(cells := t.cells, flags := t.flags, history := t.history, pendingWrap := false)
      && RowsClosed(s, t, s.top, 1, s.bottom) && t.history == WithRows(s, s.top, 1, s.bottom)
    else t == s.(curRow := if s.curRow == s.rows - 1 then s.curRow else s.curRow + 1, pendingWrap := false)
  }

  lemma LineFeedIs(s: Screen)
    requires s.Valid()
    ensures LineFed(s, LineFeed(s))
  {
    hide ScrollUp, RowsClosed, WithRows;
    if s.curRow == s.bottom {
      ScrolledUp(s, 1);
      SameRowsClosed(s, ScrollUp(s, 1), s, LineFeed(s), s.top, 1, s.bottom);
    }
  }

  /** LF, VT and FF between characters and sequences; IND and NEL anywhere. */
  lemma FeedsLines(p: Parser, c: Byte)
    requires p.Valid() && 0x0A <= c <= 0x0C
    ensures p.state.Ground? ==> LineFed(p.scr, FeedAll(p, [c]).scr)
    ensures LineFed(p.scr, FeedAll(p, [0x1B, 'D' as int]).scr)
    ensures LineFed(p.scr.(curCol := 0), FeedAll(p, [0x1B, 'E' as int]).scr)
  {
    hide FeedAll, LineFeed, LineFed, FeedUtf8;
    Wire.FeedOne(p, c);
    FeedEscape(p, 'D');
    FeedEscape(p, 'E');
    LineFeedIs(p.scr);
    LineFeedIs(p.scr.(curCol := 0));
  }

  /** RI. */
  lemma ReversesLine(p: Parser)
    requires p.Valid()
    ensures var s, t := p.scr, FeedAll(p, [0x1B, 'M' as int]).scr;
      if s.curRow == s.top then
        t == s.(cells := t.cells, flags := t.flags, pendingWrap := false) && RowsOpened(s, t, s.top, 1, s.bottom)
      else t == s.(curRow := if s.curRow == 0 then 0 else s.curRow - 1, pendingWrap := false)
  {
    hide FeedAll, ScrollDown, RowsOpened;
    var s := p.scr;
    FeedEscape(p, 'M');
    if s.curRow == s.top {
      ScrolledDown(s, 1);
      SameRowsOpened(s, ScrollDown(s, 1), s, ReverseIndex(s), s.top, 1, s.bottom);
    }
  }

  /* ---- erasing ---- */

  /** The part of the screen each form of ED erases, in reading order: from the cursor on, up to it, or all. */
  predicate InDisplay(s: Screen, mode: nat, r: nat, c: nat) {
    match mode
    case 0 => r > s.curRow || (r == s.curRow && c >= s.curCol)
    case 1 => r < s.curRow || (r == s.curRow && c <= s.curCol)
    case 2 => true
    case 3 => true
    case _ => false
  }

  /** The rows that lose their wrap flags. */
  predicate Unwraps(s: Screen, mode: nat, r: nat) {
    match mode
    case 0 => r >= s.curRow
    case 1 => r < s.curRow
    case 2 => true
    case 3 => true
    case _ => false
  }

  /** What two of the steps of ED leave. */
  lemma ClearedRows(s: Screen, from: nat, below: nat)
    requires s.Valid() && from <= below <= s.rows
    ensures var t := ClearRows(s, from, below);
      t == s.(cells := t.cells)
      && (forall r :: 0 <= r < s.rows ==>
            t.cells[r] == if from <= r < below then BlankRow(s.cols, BlankCell(s.pen)) else s.cells[r])
    ensures var t := ClearFlags(s, from, below);
      t == s.(flags := t.flags)
      && (forall r :: 0 <= r < s.rows ==> t.flags[r] == (s.flags[r] && !(from <= r < below)))
  {
    hide BlankCell;
  }

  /** A cell of the screen once ED has been done. */
  ghost predicate ErasedAt(s: Screen, t: Screen, mode: nat, r: nat, c: nat) {
    && r < |s.cells| && r < |t.cells| && c < |s.cells[r]| && c < |t.cells[r]|
    && if InDisplay(s, mode, r, c) then t.cells[r][c] == BlankCell(s.pen) else t.cells[r][c] == s.cells[r][c]
  }

  /** The screen once ED has been done. */
  ghost predicate DisplayErased(s: Screen, t: Screen, mode: nat) {
    && |s.flags| == |t.flags| == s.rows
    && t == s.(cells := t.cells, flags := t.flags)
    && (forall r :: 0 <= r < s.rows ==> t.flags[r] == (s.flags[r] && !Unwraps(s, mode, r)))
    && (forall r, c :: 0 <= r < s.rows && 0 <= c < s.cols ==> ErasedAt(s, t, mode, r, c))
  }

  lemma FromCursor(s: Screen)
    requires s.Valid()
    ensures DisplayErased(s, EraseDisplay(s, 0), 0)
  {
    hide BlankCell, ClearRows, ClearFlags;
    var s1 := ClearCells(s, s.curRow, s.curCol, s.cols - 1);
    ClearedRows(s1, s.curRow + 1, s.rows);
    ClearedRows(ClearRows(s1, s.curRow + 1, s.rows), s.curRow, s.rows);
  }

  lemma UpToCursor(s: Screen)
    requires s.Valid()
    ensures DisplayErased(s, EraseDisplay(s, 1), 1)
  {
    hide BlankCell, ClearRows, ClearFlags;
    var s1 := ClearRows(s, 0, s.curRow);
    ClearedRows(s, 0, s.curRow);
    ClearedRows(ClearCells(s1, s.curRow, 0, s.curCol), 0, s.curRow);
  }

  lemma All(s: Screen, mode: nat)
    requires s.Valid() && mode >= 2
    ensures DisplayErased(s, EraseDisplay(s, mode), mode)
  {
    hide BlankCell, ClearRows, ClearFlags;
    ClearedRows(s, 0, s.rows);
    ClearedRows(ClearRows(s, 0, s.rows), 0, s.rows);
  }

  /** ED. */
  lemma ErasesDisplay(p: Parser, d: seq<Byte>)
    requires p.Valid() && Argument(d)
    ensures var s, t, mode := p.scr, FeedAll(p, Command(d, 'J')).scr, Number(d);
      && t == s.(cells := t.cells, flags := t.flags) && t.Valid()
      && (forall r :: 0 <= r < s.rows ==> t.flags[r] == (s.flags[r] && !Unwraps(s, mode, r)))
      && (forall r, c :: 0 <= r < s.rows && 0 <= c < s.cols ==>
            if InDisplay(s, mode, r, c) then Erased(t.cells[r][c], s.pen) else t.cells[r][c] == s.cells[r][c])
  {
    hide FeedAll, EraseDisplay, CsiEdit, BlankCell, Erased, Number, InDisplay, Unwraps;
    EditFed(p, d, 'J');
    Dispatched(p.scr, Read(d));
    var s, mode := p.scr, Number(d);
    if mode == 0 { FromCursor(s); } else if mode == 1 { UpToCursor(s); } else { All(s, mode); }
    CellsOfDisplay(s, EraseDisplay(s, mode), mode);
  }

  lemma CellsOfDisplay(s: Screen, t: Screen, mode: nat)
    requires s.Valid() && t.Valid() && DisplayErased(s, t, mode)
    ensures forall r, c :: 0 <= r < s.rows && 0 <= c < s.cols ==>
              if InDisplay(s, mode, r, c) then Erased(t.cells[r][c], s.pen) else t.cells[r][c] == s.cells[r][c]
  {
    hide BlankCell, Erased, InDisplay, Unwraps;
    BlankIsErased(s.pen);
    forall r, c | 0 <= r < s.rows && 0 <= c < s.cols
      ensures if InDisplay(s, mode, r, c) then Erased(t.cells[r][c], s.pen) else t.cells[r][c] == s.cells[r][c]
    {
      assert ErasedAt(s, t, mode, r, c);
    }
  }

  /** One row of cells changed, no other. */
  ghost predicate OnlyRow(s: Screen, t: Screen, row: nat) {
    && t == s.(cells := t.cells, flags := t.flags)
    && |t.cells| == |s.cells| && row < |s.cells| && |t.cells[row]| == |s.cells[row]|
    && forall r :: 0 <= r < |s.cells| && r != row ==> t.cells[r] == s.cells[r]
  }

  /** Whether each form of EL erases column c. */
  predicate InLine(s: Screen, mode: nat, c: nat) {
    (mode == 0 && c >= s.curCol) || (mode == 1 && c <= s.curCol) || mode == 2
  }

  lemma LineErased(s: Screen, mode: nat)
    requires s.Valid()
    ensures var t := EraseLine(s, mode);
      && OnlyRow(s, t, s.curRow) && t.flags == (if mode == 0 then s.flags[s.curRow := false] else s.flags)
      && (forall c :: 0 <= c < s.cols ==>
            t.cells[s.curRow][c] == if InLine(s, mode, c) then BlankCell(s.pen) else s.cells[s.curRow][c])
  {
    hide BlankCell, ClearCells;
    if mode == 0 { CellsCleared(s, s.curRow, s.curCol, s.cols - 1); }
    else if mode == 1 { CellsCleared(s, s.curRow, 0, s.curCol); }
    else if mode == 2 { CellsCleared(s, s.curRow, 0, s.cols - 1); }
  }

  lemma CellsCleared(s: Screen, row: nat, first: nat, last: int)
    requires s.Valid() && row < s.rows && last < s.cols
    ensures var t := ClearCells(s, row, first, last);
      && OnlyRow(s, t, row) && t.flags == s.flags
      && (forall c :: 0 <= c < s.cols ==>
            t.cells[row][c] == if first <= c <= last then BlankCell(s.pen) else s.cells[row][c])
  {
    hide BlankCell;
  }

  /** EL: from the cursor on, up to it, or the row; only the first takes the wrap flag off. */
  lemma ErasesLine(p: Parser, d: seq<Byte>)
    requires p.Valid() && Argument(d)
    ensures var s, t, mode := p.scr, FeedAll(p, Command(d, 'K')).scr, Number(d);
      && OnlyRow(s, t, s.curRow) && t.flags == (if mode == 0 then s.flags[s.curRow := false] else s.flags)
      && (forall c :: 0 <= c < s.cols ==>
            if InLine(s, mode, c) then Erased(t.cells[s.curRow][c], s.pen)
            else t.cells[s.curRow][c] == s.cells[s.curRow][c])
  {
    hide FeedAll, CsiEdit, BlankCell, Erased, Number, EraseLine, InLine;
    EditFed(p, d, 'K');
    Dispatched(p.scr, Read(d));
    LineErased(p.scr, Number(d));
    BlankIsErased(p.scr.pen);
  }

  /** n cells of the cursor's row from the cursor on erased. */
  ghost predicate CellsErased(s: Screen, t: Screen, n: nat)
    requires s.Valid()
  {
    && OnlyRow(s, t, s.curRow) && t.flags == s.flags
    && forall c :: 0 <= c < s.cols ==>
         if s.curCol <= c < s.curCol + n then Erased(t.cells[s.curRow][c], s.pen)
         else t.cells[s.curRow][c] == s.cells[s.curRow][c]
  }

  /** n cells opened at the cursor; those from there on move right, and past the margin they are lost. */
  ghost predicate CellsOpened(s: Screen, t: Screen, n: nat)
    requires s.Valid()
  {
    && OnlyRow(s, t, s.curRow) && t.flags == s.flags
    && forall c :: 0 <= c < s.cols ==>
         if s.curCol <= c < s.curCol + n then Erased(t.cells[s.curRow][c], s.pen)
         else t.cells[s.curRow][c] == s.cells[s.curRow][if c < s.curCol then c else c - n]
  }

  /** n cells closed up at the cursor; those behind them move left, and erased ones come in at the margin. */
  ghost predicate CellsClosed(s: Screen, t: Screen, n: nat)
    requires s.Valid()
  {
    && OnlyRow(s, t, s.curRow) && t.flags == s.flags
    && forall c :: 0 <= c < s.cols ==>
         if c < s.curCol then t.cells[s.curRow][c] == s.cells[s.curRow][c]
         else if c + n < s.cols then t.cells[s.curRow][c] == s.cells[s.curRow][c + n]
         else Erased(t.cells[s.curRow][c], s.pen)
  }

  lemma CharsErased(s: Screen, n: nat)
    requires s.Valid() && n > 0
    ensures CellsErased(s, EraseChars(s, n), n)
  {
    hide BlankCell, Erased;
    BlankIsErased(s.pen);
  }

  lemma CharsInserted(s: Screen, n: nat)
    requires s.Valid() && n > 0
    ensures CellsOpened(s, InsertChars(s, n), n)
  {
    hide BlankCell, Erased;
    BlankIsErased(s.pen);
  }

  lemma CharsDeleted(s: Screen, n: nat)
    requires s.Valid() && n > 0
    ensures CellsClosed(s, DeleteChars(s, n), n)
  {
    hide BlankCell, Erased;
    BlankIsErased(s.pen);
  }

  /** ECH, ICH and DCH. */
  lemma EditsCells(p: Parser, d: seq<Byte>)
    requires p.Valid() && Argument(d)
    ensures CellsErased(p.scr, FeedAll(p, Command(d, 'X')).scr, Amount(d))
    ensures CellsOpened(p.scr, FeedAll(p, Command(d, '@')).scr, Amount(d))
    ensures CellsClosed(p.scr, FeedAll(p, Command(d, 'P')).scr, Amount(d))
  {
    hide FeedAll, CsiEdit, Number, Amount, EraseChars, InsertChars, DeleteChars, CellsErased, CellsOpened, CellsClosed;
    EditFed(p, d, 'X');
    EditFed(p, d, '@');
    EditFed(p, d, 'P');
    Dispatched(p.scr, Read(d));
    CharsErased(p.scr, Amount(d));
    CharsInserted(p.scr, Amount(d));
    CharsDeleted(p.scr, Amount(d));
  }

  /* ---- reset ---- */

  /** RIS: a screen of the same size, erased in the default colours, with nothing else left of before. */
  lemma ResetsAll(p: Parser)
    requires p.Valid()
    ensures var s, q := p.scr, FeedAll(p, [0x1B, 'c' as int]); var t := q.scr;
      && t.Valid() && t.rows == s.rows && t.cols == s.cols
      && (forall r :: 0 <= r < s.rows ==> RowErased(t, r, Pen(256, 256, {})))
      && t.curRow == t.curCol == 0 && t.visible && !t.pendingWrap
      && !t.origin && t.autoWrap && !t.insert && !t.inAlt && t.top == 0 && t.bottom == s.rows - 1
      && t.pen == Pen(256, 256, {}) && t.history == History([]) && !q.g0Dec
      && forall c: nat :: c in q.tabs <==> c < s.cols && c < 512 && c % 8 == 0
  {
    hide FeedAll, LineFeed, ReverseIndex, RowErased;
    FeedEscape(p, 'c');
    InitIs(p.scr.rows, p.scr.cols);
  }

  lemma InitIs(rows: nat, cols: nat)
    requires 1 <= rows && 2 <= cols
    ensures var t := Init(rows, cols, History([])); forall r :: 0 <= r < rows ==> RowErased(t, r, Pen(256, 256, {}))
  {
  }
}
